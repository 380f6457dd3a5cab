/** The worker pool of primer_pool.c as interleaved steps: one producer, N workers, a
    one-slot mailbox `num`, one mutex and one condition variable shared by both sides. */
module PrimerPool {

  // ----- the prime test -----

  predicate IsPrime(n: int) {
    n >= 2 && forall j :: 2 <= j < n ==> n % j != 0
  }

  /** What a worker prints: no divisor found below i/2. */
  predicate Marked(i: int) {
    forall j :: 2 <= j < i / 2 ==> i % j != 0
  }

  method Mark(i: int) returns (mark: bool)
    ensures mark == Marked(i)
    ensures mark <==> IsPrime(i) || i <= 1 || i == 4
  {
    mark := true;
    var j := 2;
    while j < i / 2
      invariant 2 <= j && mark && forall k :: 2 <= k < j ==> i % k != 0
    {
      if i % j == 0 {
        mark := false;
        break;
      }
      j := j + 1;
    }
    MarkedPrime(i);
  }

  /** Stopping below i/2 loses no divisor except for 4; 1 and less have none to find. */
  lemma MarkedPrime(i: int)
    ensures Marked(i) <==> IsPrime(i) || i <= 1 || i == 4
  {
    if Marked(i) && i > 4 {
      forall j | 2 <= j < i
        ensures i % j != 0
      {
        if i % j == 0 {
          SmallDivisor(i, j);
        }
      }
    }
  }

  lemma AtMostOnce(d: int, e: int)
    requires d >= 0 && e <= 1
    ensures d * e <= d
  {
  }

  lemma SmallDivisor(n: int, d: int)
    requires n > 4 && 2 <= d < n && n % d == 0
    ensures exists j :: 2 <= j < n / 2 && n % j == 0
  {
    var e := n / d;
    assert n == d * e;
    if e <= 1 {
      AtMostOnce(d, e);
      assert false;
    } else if e == 2 {
      assert n % 2 == 0 && 2 < n / 2;
    } else {
      assert d * e >= 3 * d;
      assert d < n / 2;
    }
  }

  // ----- states -----

  /** A worker's place in its loop, with the number it carries. */
  datatype Worker =
    | WLock
    | WCheck
    | WWaiting
    | WWoken
    | WTest
    | WSignal(i: int)
    | WUnlock(i: int)
    | WCompute(i: int)
    | WExit
    | WDone

  /** The producer's place; `i` is the number it is about to post, or one past the last
      when it is about to post -1. */
  datatype Producer =
    | MLock(i: int)
    | MCheck(i: int)
    | MWaiting(i: int)
    | MWoken(i: int)
    | MSet(i: int)
    | MSignal(i: int)
    | MUnlock(i: int)
    | MJoin
    | MDone

  datatype Owner = Free | ByMain | ByWorker(w: nat)

  /** The shared variables, every thread's place, and a record of what was taken by whom
      and what was printed. */
  datatype State = State(
    num: int,
    mutex: Owner,
    main: Producer,
    workers: seq<Worker>,
    taken: seq<(nat, int)>,
    finished: set<int>,
    printed: seq<int>)

  /** The range LEFT..RIGHT. */
  datatype Range = Range(left: int, right: int)

  predicate Holds(g: Range, x: int) {
    g.left <= x <= g.right
  }

  /** Neither the empty mailbox nor the end is a number of the range. */
  predicate WfRange(g: Range) {
    g.left <= g.right + 1 && !Holds(g, 0) && !Holds(g, -1)
  }

  /** A number is in the mailbox. */
  predicate Posted(num: int) {
    num != 0 && num != -1
  }

  function Init(g: Range, n: nat): State {
    State(0, Free, MLock(g.left), seq(n, _ => WLock), [], {}, [])
  }

  // ----- steps -----

  /** A step of the producer (which names the waiter a signal wakes), of a worker, or a
      spurious wakeup. */
  datatype Action = MainStep(wake: nat) | WorkerStep(w: nat) | SpuriousMain | SpuriousWorker(w: nat)

  function Wake(p: Worker): Worker {
    if p == WWaiting then WWoken else p
  }

  function WakeAll(ws: seq<Worker>): (r: seq<Worker>)
    ensures |r| == |ws| && forall k :: 0 <= k < |ws| ==> r[k] == Wake(ws[k])
  {
    seq(|ws|, k requires 0 <= k < |ws| => Wake(ws[k]))
  }

  function WakeMain(m: Producer): Producer {
    if m.MWaiting? then MWoken(m.i) else m
  }

  predicate Enabled(s: State, a: Action) {
    match a
    case MainStep(wake) =>
      match s.main {
        case MLock(_) => s.mutex == Free
        case MWoken(_) => s.mutex == Free
        case MWaiting(_) => false
        case MSignal(_) =>
          wake < |s.workers| && (s.workers[wake] == WWaiting || forall k :: 0 <= k < |s.workers| ==> s.workers[k] != WWaiting)
        case MJoin => forall k :: 0 <= k < |s.workers| ==> s.workers[k] == WDone
        case MDone => false
        case _ => true
      }
    case WorkerStep(w) =>
      w < |s.workers| &&
      match s.workers[w] {
        case WLock => s.mutex == Free
        case WWoken => s.mutex == Free
        case WWaiting => false
        case WDone => false
        case _ => true
      }
    case SpuriousMain => s.main.MWaiting?
    case SpuriousWorker(w) => w < |s.workers| && s.workers[w] == WWaiting
  }

  function MainNext(g: Range, s: State, wake: nat): State
    requires Enabled(s, MainStep(wake))
  {
    match s.main
    case MLock(i) => s.(mutex := ByMain, main := MCheck(i))
    case MWoken(i) => s.(mutex := ByMain, main := MCheck(i))
    case MCheck(i) => if s.num != 0 then s.(mutex := Free, main := MWaiting(i)) else s.(main := MSet(i))
    case MSet(i) => s.(num := if i <= g.right then i else -1, main := MSignal(i))
    case MSignal(i) =>
      if i <= g.right then s.(workers := s.workers[wake := Wake(s.workers[wake])], main := MUnlock(i))
      else s.(workers := WakeAll(s.workers), main := MUnlock(i))
    case MUnlock(i) => s.(mutex := Free, main := if i <= g.right then MLock(i + 1) else MJoin)
    case MJoin => s.(main := MDone)
    case _ => s
  }

  function WorkerNext(s: State, w: nat): State
    requires Enabled(s, WorkerStep(w))
  {
    match s.workers[w]
    case WLock => s.(mutex := ByWorker(w), workers := s.workers[w := WCheck])
    case WWoken => s.(mutex := ByWorker(w), workers := s.workers[w := WCheck])
    case WCheck =>
      if s.num == 0 then s.(mutex := Free, workers := s.workers[w := WWaiting])
      else s.(workers := s.workers[w := WTest])
    case WTest =>
      if s.num == -1 then s.(workers := s.workers[w := WExit])
      else s.(num := 0, workers := s.workers[w := WSignal(s.num)], taken := s.taken + [(w, s.num)])
    case WSignal(i) => s.(main := WakeMain(s.main), workers := WakeAll(s.workers)[w := WUnlock(i)])
    case WUnlock(i) => s.(mutex := Free, workers := s.workers[w := WCompute(i)])
    case WCompute(i) =>
      s.(workers := s.workers[w := WLock], finished := s.finished + {i},
         printed := if Marked(i) then s.printed + [i] else s.printed)
    case WExit => s.(mutex := Free, workers := s.workers[w := WDone])
    case _ => s
  }

  function Next(g: Range, s: State, a: Action): State
    requires Enabled(s, a)
  {
    match a
    case MainStep(wake) => MainNext(g, s, wake)
    case WorkerStep(w) => WorkerNext(s, w)
    case SpuriousMain => s.(main := WakeMain(s.main))
    case SpuriousWorker(w) => s.(workers := s.workers[w := WWoken])
  }

  /** The actions form a schedule from `s`. */
  ghost predicate IsSchedule(g: Range, s: State, acts: seq<Action>)
    decreases |acts|
  {
    acts == [] || (Enabled(s, acts[0]) && IsSchedule(g, Next(g, s, acts[0]), acts[1..]))
  }

  ghost function Run(g: Range, s: State, acts: seq<Action>): State
    requires IsSchedule(g, s, acts)
    decreases |acts|
  {
    if acts == [] then s else Run(g, Next(g, s, acts[0]), acts[1..])
  }

  // ----- the invariant -----

  predicate MainHolds(m: Producer) {
    m.MCheck? || m.MSet? || m.MSignal? || m.MUnlock?
  }

  predicate WorkerHolds(p: Worker) {
    p.WCheck? || p.WTest? || p.WSignal? || p.WUnlock? || p.WExit?
  }

  predicate Awake(p: Worker) {
    !p.WWaiting? && !p.WDone?
  }

  predicate Carries(p: Worker) {
    p.WSignal? || p.WUnlock? || p.WCompute?
  }

  /** The producer has stored -1. */
  predicate Closed(g: Range, m: Producer) {
    m.MJoin? || m.MDone? || ((m.MSignal? || m.MUnlock?) && m.i > g.right)
  }

  /** The first number not yet posted. */
  function NextPost(g: Range, m: Producer): int {
    if m.MJoin? || m.MDone? then g.right + 1
    else if (m.MSignal? || m.MUnlock?) && m.i <= g.right then m.i + 1
    else m.i
  }

  /** The mutex belongs to exactly the thread that is between lock and unlock. */
  ghost predicate InvMutex(s: State) {
    && (s.mutex == ByMain <==> MainHolds(s.main))
    && (forall w :: 0 <= w < |s.workers| ==> (s.mutex == ByWorker(w) <==> WorkerHolds(s.workers[w])))
    && (s.mutex.ByWorker? ==> s.mutex.w < |s.workers|)
  }

  ghost predicate InvNum(g: Range, s: State) {
    && (s.main.MJoin? || s.main.MDone? || g.left <= s.main.i <= g.right + 1)
    && (s.num == -1 <==> Closed(g, s.main))
    && (s.main.MSet? ==> s.num == 0)
    && (Posted(s.num) ==> Holds(g, s.num))
    && (forall w :: 0 <= w < |s.workers| && s.workers[w] == WTest ==> s.num != 0)
    && (forall w :: 0 <= w < |s.workers| && (s.workers[w] == WDone || s.workers[w] == WExit) ==> s.num == -1)
    && (s.main.MDone? ==> forall w :: 0 <= w < |s.workers| ==> s.workers[w] == WDone)
  }

  /** Numbers leave the mailbox in the order they were posted, each once. */
  ghost predicate InvTaken(g: Range, s: State) {
    && |s.taken| + (if Posted(s.num) then 1 else 0) == NextPost(g, s.main) - g.left
    && (Posted(s.num) ==> s.num == g.left + |s.taken|)
    && (forall k {:trigger s.taken[k].1} :: 0 <= k < |s.taken| ==> s.taken[k].1 == g.left + k)
  }

  /** What a worker carries it has taken itself and not yet finished. */
  ghost predicate CarryOk(g: Range, s: State, w: nat)
    requires w < |s.workers|
  {
    Carries(s.workers[w]) ==>
      var k := s.workers[w].i - g.left;
      0 <= k < |s.taken| && g.left + k !in s.finished && s.taken[k].0 == w
  }

  /** The k-th number taken is finished or in the hands of the worker that took it. */
  ghost predicate Accounted(g: Range, s: State, k: nat)
    requires k < |s.taken|
  {
    g.left + k in s.finished ||
    (var w := s.taken[k].0; w < |s.workers| && Carries(s.workers[w]) && s.workers[w].i == g.left + k)
  }

  ghost predicate InvCarry(g: Range, s: State) {
    && (forall w: nat :: w < |s.workers| ==> CarryOk(g, s, w))
    && (forall k: nat :: k < |s.taken| ==> Accounted(g, s, k))
    && (forall x :: x in s.finished ==> g.left <= x < g.left + |s.taken|)
  }

  ghost predicate InvPrinted(s: State) {
    && (forall i, j :: 0 <= i < j < |s.printed| ==> s.printed[i] != s.printed[j])
    && (forall x :: x in s.printed <==> x in s.finished && Marked(x))
  }

  /** No wakeup is lost: whoever waits has someone awake who will move things on. */
  ghost predicate InvWake(s: State) {
    && (s.main.MWaiting? ==> s.num != 0 || exists w :: 0 <= w < |s.workers| && s.workers[w].WSignal?)
    && (Posted(s.num) ==> s.main.MSignal? || exists w :: 0 <= w < |s.workers| && Awake(s.workers[w]))
    && (s.num == -1 ==> s.main.MSignal? || forall w :: 0 <= w < |s.workers| ==> s.workers[w] != WWaiting)
  }

  ghost predicate Inv(g: Range, s: State) {
    && WfRange(g) && |s.workers| >= 1
    && InvMutex(s) && InvNum(g, s) && InvTaken(g, s) && InvCarry(g, s) && InvPrinted(s) && InvWake(s)
  }

  lemma InitInv(g: Range, n: nat)
    requires WfRange(g) && n >= 1
    ensures Inv(g, Init(g, n))
  {
  }

  lemma MainMutexNum(g: Range, s: State, wake: nat)
    requires Inv(g, s) && Enabled(s, MainStep(wake))
    ensures var r := MainNext(g, s, wake); InvMutex(r) && InvNum(g, r) && InvTaken(g, r)
  {
    hide InvCarry, InvPrinted, InvWake;
  }

  lemma MainCarry(g: Range, s: State, wake: nat)
    requires Inv(g, s) && Enabled(s, MainStep(wake))
    ensures var r := MainNext(g, s, wake); InvCarry(g, r) && InvPrinted(r)
  {
    hide InvMutex, InvNum, InvTaken, InvWake;
    SameCarriers(g, s, MainNext(g, s, wake));
  }

  /** Waking threads leaves the numbers where they are. */
  lemma SameCarriers(g: Range, s: State, r: State)
    requires InvCarry(g, s) && InvPrinted(s)
    requires r.taken == s.taken && r.finished == s.finished && r.printed == s.printed && |r.workers| == |s.workers|
    requires forall w :: 0 <= w < |s.workers| ==> r.workers[w] == s.workers[w] || r.workers[w] == Wake(s.workers[w])
    ensures InvCarry(g, r) && InvPrinted(r)
  {
    forall w: nat | w < |s.workers|
      ensures CarryOk(g, r, w)
    {
      assert CarryOk(g, s, w);
    }
    forall k: nat | k < |s.taken|
      ensures Accounted(g, r, k)
    {
      assert Accounted(g, s, k);
    }
  }

  lemma MainWake(g: Range, s: State, wake: nat)
    requires Inv(g, s) && Enabled(s, MainStep(wake))
    ensures InvWake(MainNext(g, s, wake))
  {
    hide InvCarry, InvPrinted, InvTaken;
    var r := MainNext(g, s, wake);
    if s.main.MSignal? {
      assert Posted(r.num) ==> Awake(r.workers[wake]);
    } else if Posted(r.num) && !r.main.MSignal? {
      var w :| 0 <= w < |s.workers| && Awake(s.workers[w]);
      assert Awake(r.workers[w]);
    }
  }

  lemma WorkerMutexNum(g: Range, s: State, w: nat)
    requires Inv(g, s) && Enabled(s, WorkerStep(w))
    ensures var r := WorkerNext(s, w); InvMutex(r) && InvNum(g, r) && InvTaken(g, r)
  {
    hide InvCarry, InvPrinted, InvWake;
  }

  lemma WorkerCarry(g: Range, s: State, w: nat)
    requires Inv(g, s) && Enabled(s, WorkerStep(w))
    ensures InvCarry(g, WorkerNext(s, w))
  {
    hide InvMutex, InvWake, InvPrinted;
    var r := WorkerNext(s, w);
    assert CarryOk(g, s, w);
    forall v: nat | v < |s.workers|
      ensures CarryOk(g, r, v)
    {
      assert CarryOk(g, s, v);
    }
    forall k: nat | k < |r.taken|
      ensures Accounted(g, r, k)
    {
      assert k < |s.taken| ==> Accounted(g, s, k);
    }
  }

  lemma WorkerPrinted(g: Range, s: State, w: nat)
    requires Inv(g, s) && Enabled(s, WorkerStep(w))
    ensures var r := WorkerNext(s, w); InvPrinted(r)
  {
    hide InvMutex, InvNum, InvTaken, InvWake;
    assert CarryOk(g, s, w);
  }

  lemma WorkerWake(g: Range, s: State, w: nat)
    requires Inv(g, s) && Enabled(s, WorkerStep(w))
    ensures InvWake(WorkerNext(s, w))
  {
    hide InvCarry, InvPrinted, InvTaken;
    var r := WorkerNext(s, w);
    assert Posted(r.num) ==> Awake(r.workers[w]);
    assert s.workers[w] == WTest && r.num == 0 ==> r.workers[w].WSignal?;
    if s.main.MWaiting? && s.num == 0 {
      var v :| 0 <= v < |s.workers| && s.workers[v].WSignal?;
      assert v != w ==> r.workers[v].WSignal?;
    }
  }

  lemma SpuriousInv(g: Range, s: State, a: Action)
    requires Inv(g, s) && Enabled(s, a) && (a.SpuriousMain? || a.SpuriousWorker?)
    ensures Inv(g, Next(g, s, a))
  {
    var r := Next(g, s, a);
    assert InvMutex(r) && InvNum(g, r) && InvTaken(g, r) by {
      hide InvCarry, InvPrinted, InvWake;
    }
    assert InvCarry(g, r) && InvPrinted(r) by {
      hide InvMutex, InvNum, InvTaken, InvWake;
      SameCarriers(g, s, r);
    }
    assert InvWake(r) by {
      hide InvMutex, InvNum, InvTaken, InvCarry, InvPrinted;
      if Posted(s.num) && !s.main.MSignal? {
        var w :| 0 <= w < |s.workers| && Awake(s.workers[w]);
        assert Awake(r.workers[w]);
      }
    }
    hide InvMutex, InvNum, InvTaken, InvCarry, InvPrinted, InvWake;
  }

  /** Every step keeps the invariant. */
  lemma StepInv(g: Range, s: State, a: Action)
    requires Inv(g, s) && Enabled(s, a)
    ensures Inv(g, Next(g, s, a)) && |Next(g, s, a).workers| == |s.workers|
  {
    match a
    case MainStep(wake) =>
      MainMutexNum(g, s, wake);
      MainCarry(g, s, wake);
      MainWake(g, s, wake);
    case WorkerStep(w) =>
      WorkerMutexNum(g, s, w);
      WorkerCarry(g, s, w);
      WorkerPrinted(g, s, w);
      WorkerWake(g, s, w);
    case _ => SpuriousInv(g, s, a);
  }

  /** Every schedule keeps the invariant. */
  lemma {:induction false} RunInv(g: Range, s: State, acts: seq<Action>)
    requires Inv(g, s) && IsSchedule(g, s, acts)
    ensures Inv(g, Run(g, s, acts)) && |Run(g, s, acts).workers| == |s.workers|
    decreases |acts|
  {
    hide Inv, Next, Enabled;
    if acts != [] {
      StepInv(g, s, acts[0]);
      RunInv(g, Next(g, s, acts[0]), acts[1..]);
    }
  }

  // ----- safety over whole schedules -----

  /** In every schedule the numbers are handed out in order, each to exactly one worker,
      and at most one is posted and not yet taken. */
  lemma ExactlyOnce(g: Range, n: nat, acts: seq<Action>)
    requires WfRange(g) && n >= 1 && IsSchedule(g, Init(g, n), acts)
    ensures var s := Run(g, Init(g, n), acts);
            && |s.taken| <= g.right + 1 - g.left
            && (forall k :: 0 <= k < |s.taken| ==> s.taken[k].1 == g.left + k)
            && (Posted(s.num) ==> s.num == g.left + |s.taken|)
  {
    InitInv(g, n);
    RunInv(g, Init(g, n), acts);
  }

  /** When the producer has joined the workers, every number of the range has been tested
      by the worker that took it, and the marked ones have been printed, each once. */
  lemma FinalOutput(g: Range, n: nat, acts: seq<Action>)
    requires WfRange(g) && n >= 1 && IsSchedule(g, Init(g, n), acts)
    requires Run(g, Init(g, n), acts).main.MDone?
    ensures var s := Run(g, Init(g, n), acts);
            && |s.taken| == g.right + 1 - g.left
            && (forall i, j :: 0 <= i < j < |s.printed| ==> s.printed[i] != s.printed[j])
            && (forall x :: x in s.printed <==> g.left <= x <= g.right && (IsPrime(x) || x <= 1 || x == 4))
  {
    InitInv(g, n);
    RunInv(g, Init(g, n), acts);
    var s := Run(g, Init(g, n), acts);
    hide Run, IsSchedule;
    forall x
      ensures x in s.printed <==> g.left <= x <= g.right && (IsPrime(x) || x <= 1 || x == 4)
    {
      if g.left <= x <= g.right {
        assert Accounted(g, s, x - g.left);
        MarkedPrime(x);
      }
    }
  }

  /** The printed numbers are exactly the primes of the range if and only if the range
      leaves out 4 and whatever is below 2. */
  lemma OnlyPrimes(g: Range, n: nat, acts: seq<Action>)
    requires WfRange(g) && n >= 1 && IsSchedule(g, Init(g, n), acts)
    requires Run(g, Init(g, n), acts).main.MDone?
    ensures var s := Run(g, Init(g, n), acts);
            (forall x :: x in s.printed <==> g.left <= x <= g.right && IsPrime(x))
            <==> (g.left > g.right || g.left > 1) && !Holds(g, 4)
  {
    FinalOutput(g, n, acts);
    var s := Run(g, Init(g, n), acts);
    hide Run, IsSchedule;
    assert 4 % 2 == 0;
    assert !IsPrime(4);
    assert Holds(g, g.left) && g.left <= 1 ==> g.left in s.printed && !IsPrime(g.left);
  }

  // ----- progress -----

  predicate Spurious(a: Action) {
    a.SpuriousMain? || a.SpuriousWorker?
  }

  /** Until the producer is done, some thread can take a step of its own. */
  lemma NoDeadlock(g: Range, s: State)
    requires Inv(g, s) && !s.main.MDone?
    ensures exists a :: Enabled(s, a) && !Spurious(a)
  {
    hide InvCarry, InvPrinted, InvTaken;
    if s.main.MSignal? {
      if w: nat :| w < |s.workers| && s.workers[w] == WWaiting {
        assert Enabled(s, MainStep(w));
      } else {
        assert Enabled(s, MainStep(0));
      }
    } else if MainHolds(s.main) {
      assert Enabled(s, MainStep(0));
    } else if s.mutex.ByWorker? {
      assert Enabled(s, WorkerStep(s.mutex.w));
    } else if w: nat :| w < |s.workers| && Awake(s.workers[w]) {
      assert Enabled(s, WorkerStep(w));
    } else {
      assert Enabled(s, MainStep(0));
    }
  }

  /** How many more of its own steps a thread can take before the mailbox changes; a
      thread about to signal also pays for everyone it may wake. */
  function WorkerRank(n: nat, p: Worker): nat {
    match p
    case WWaiting => 0
    case WDone => 0
    case WExit => 1
    case WTest => 2
    case WCheck => 3
    case WLock => 4
    case WWoken => 4
    case WCompute(_) => 5
    case WUnlock(_) => 6
    case WSignal(_) => 11 + 4 * n
  }

  function MainRank(n: nat, m: Producer): nat {
    match m
    case MWaiting(_) => 0
    case MDone => 0
    case MJoin => 1
    case MSet(_) => 2
    case MCheck(_) => 3
    case MLock(_) => 4
    case MWoken(_) => 4
    case MUnlock(_) => 6
    case MSignal(_) => 11 + 4 * n
  }

  /** How many more times the mailbox will change. */
  function Changes(g: Range, s: State): int {
    2 * (g.right + 1 - NextPost(g, s.main)) + (if Posted(s.num) then 1 else 0) + (if Closed(g, s.main) then 0 else 1)
  }

  function RankSum(n: nat, ws: seq<Worker>): nat {
    if ws == [] then 0 else WorkerRank(n, ws[0]) + RankSum(n, ws[1..])
  }

  function Potential(g: Range, s: State): int {
    var n := |s.workers|;
    (10 + 4 * n) * Changes(g, s) + MainRank(n, s.main) + RankSum(n, s.workers)
  }

  lemma {:induction false} RankSumUpdate(n: nat, ws: seq<Worker>, w: nat, p: Worker)
    requires w < |ws|
    ensures RankSum(n, ws[w := p]) == RankSum(n, ws) - WorkerRank(n, ws[w]) + WorkerRank(n, p)
    decreases w
  {
    if w > 0 {
      RankSumUpdate(n, ws[1..], w - 1, p);
      assert ws[w := p][1..] == ws[1..][w - 1 := p];
    } else {
      assert ws[w := p][1..] == ws[1..];
    }
  }

  lemma {:induction false} RankSumWakeAll(n: nat, ws: seq<Worker>)
    ensures RankSum(n, WakeAll(ws)) <= RankSum(n, ws) + 4 * |ws|
  {
    if ws != [] {
      RankSumWakeAll(n, ws[1..]);
      assert WakeAll(ws)[1..] == WakeAll(ws[1..]);
    }
  }

  lemma MainDescends(g: Range, s: State, wake: nat)
    requires Inv(g, s) && Enabled(s, MainStep(wake))
    ensures Potential(g, MainNext(g, s, wake)) < Potential(g, s)
  {
    hide InvMutex, InvCarry, InvPrinted, InvWake, InvTaken, RankSum;
    var n, r := |s.workers|, MainNext(g, s, wake);
    if s.main.MSignal? {
      RankSumUpdate(n, s.workers, wake, Wake(s.workers[wake]));
      RankSumWakeAll(n, s.workers);
      assert Changes(g, r) == Changes(g, s);
    } else if s.main.MSet? {
      assert Changes(g, r) == Changes(g, s) - 1;
    } else {
      assert Changes(g, r) == Changes(g, s);
    }
  }

  lemma SignalDescends(g: Range, s: State, w: nat)
    requires Inv(g, s) && Enabled(s, WorkerStep(w)) && s.workers[w].WSignal?
    ensures Potential(g, WorkerNext(s, w)) < Potential(g, s)
  {
    hide InvMutex, InvCarry, InvPrinted, InvWake, InvTaken, RankSum;
    var n, r := |s.workers|, WorkerNext(s, w);
    RankSumWakeAll(n, s.workers);
    RankSumUpdate(n, WakeAll(s.workers), w, r.workers[w]);
    assert Changes(g, r) == Changes(g, s);
  }

  lemma TakeDescends(g: Range, s: State, w: nat)
    requires Inv(g, s) && Enabled(s, WorkerStep(w)) && s.workers[w] == WTest && s.num != -1
    ensures Potential(g, WorkerNext(s, w)) < Potential(g, s)
  {
    hide InvMutex, InvCarry, InvPrinted, InvWake, InvTaken, RankSum;
    var n, r := |s.workers|, WorkerNext(s, w);
    RankSumUpdate(n, s.workers, w, r.workers[w]);
    assert Changes(g, r) == Changes(g, s) - 1;
  }

  lemma WorkerDescends(g: Range, s: State, w: nat)
    requires Inv(g, s) && Enabled(s, WorkerStep(w))
    ensures Potential(g, WorkerNext(s, w)) < Potential(g, s)
  {
    hide Inv, RankSum;
    if s.workers[w].WSignal? {
      SignalDescends(g, s, w);
    } else if s.workers[w] == WTest && s.num != -1 {
      TakeDescends(g, s, w);
    } else {
      var n, r := |s.workers|, WorkerNext(s, w);
      RankSumUpdate(n, s.workers, w, r.workers[w]);
      assert Changes(g, r) == Changes(g, s);
    }
  }

  lemma SpuriousClimbs(g: Range, s: State, a: Action)
    requires Enabled(s, a) && Spurious(a)
    ensures Potential(g, Next(g, s, a)) <= Potential(g, s) + 4
  {
    hide RankSum;
    var r := Next(g, s, a);
    if a.SpuriousWorker? {
      RankSumUpdate(|s.workers|, s.workers, a.w, WWoken);
    }
    assert Changes(g, r) == Changes(g, s);
  }

  function CountSpurious(acts: seq<Action>): nat {
    if acts == [] then 0 else (if Spurious(acts[0]) then 1 else 0) + CountSpurious(acts[1..])
  }

  lemma PotentialNonNegative(g: Range, s: State)
    requires Inv(g, s)
    ensures Potential(g, s) >= 0
  {
    assert Changes(g, s) >= 0;
  }

  lemma {:induction false} RunDescends(g: Range, s: State, acts: seq<Action>)
    requires Inv(g, s) && IsSchedule(g, s, acts)
    ensures |acts| <= Potential(g, s) + 5 * CountSpurious(acts)
    decreases |acts|
  {
    if acts == [] {
      PotentialNonNegative(g, s);
    } else {
      hide Inv, Next, Potential, Spurious;
      var a := acts[0];
      StepInv(g, s, a);
      RunDescends(g, Next(g, s, a), acts[1..]);
      Descends(g, s, a);
    }
  }

  lemma Descends(g: Range, s: State, a: Action)
    requires Inv(g, s) && Enabled(s, a)
    ensures Potential(g, Next(g, s, a)) + 1 <= Potential(g, s) + (if Spurious(a) then 5 else 0)
  {
    hide Inv, Potential;
    match a
    case MainStep(wake) => MainDescends(g, s, wake);
    case WorkerStep(w) => WorkerDescends(g, s, w);
    case _ => SpuriousClimbs(g, s, a);
  }

  /** Every schedule is finite, up to spurious wakeups, and one that cannot be continued has
      the producer done with everything printed. */
  lemma Terminates(g: Range, n: nat, acts: seq<Action>)
    requires WfRange(g) && n >= 1 && IsSchedule(g, Init(g, n), acts)
    ensures |acts| <= Potential(g, Init(g, n)) + 5 * CountSpurious(acts)
    ensures var s := Run(g, Init(g, n), acts);
            (forall a :: Enabled(s, a) ==> Spurious(a)) ==> s.main.MDone?
  {
    hide Potential, Enabled;
    var s := Init(g, n);
    InitInv(g, n);
    RunInv(g, s, acts);
    RunDescends(g, s, acts);
    if !Run(g, s, acts).main.MDone? {
      NoDeadlock(g, Run(g, s, acts));
    }
  }

  // ----- any range -----

  /** What holds for every range: the mailbox is tested and written under the mutex, so that neither an
      empty one nor the end is ever taken for a number. */
  ghost predicate Core(s: State) {
    && InvMutex(s)
    && (s.main.MSet? ==> s.num == 0)
    && (forall w :: 0 <= w < |s.workers| && s.workers[w] == WTest ==> s.num != 0)
    && (forall k {:trigger s.taken[k]} :: 0 <= k < |s.taken| ==> Posted(s.taken[k].1))
  }

  lemma MainCore(g: Range, s: State, wake: nat)
    requires Core(s) && Enabled(s, MainStep(wake))
    ensures Core(MainNext(g, s, wake))
  {
  }

  lemma WorkerCore(s: State, w: nat)
    requires Core(s) && Enabled(s, WorkerStep(w))
    ensures Core(WorkerNext(s, w))
  {
  }

  lemma StepCore(g: Range, s: State, a: Action)
    requires Core(s) && Enabled(s, a)
    ensures Core(Next(g, s, a))
  {
    match a
    case MainStep(wake) => MainCore(g, s, wake);
    case WorkerStep(w) => WorkerCore(s, w);
    case _ =>
  }

  lemma {:induction false} RunCore(g: Range, s: State, acts: seq<Action>)
    requires Core(s) && IsSchedule(g, s, acts)
    ensures Core(Run(g, s, acts))
    decreases |acts|
  {
    hide Core, Next, Enabled;
    if acts != [] {
      StepCore(g, s, acts[0]);
      RunCore(g, Next(g, s, acts[0]), acts[1..]);
    }
  }

  /** No schedule over any range hands out 0 or -1. */
  lemma NeverTaken(g: Range, n: nat, acts: seq<Action>, k: nat)
    requires IsSchedule(g, Init(g, n), acts) && k < |Run(g, Init(g, n), acts).taken|
    ensures Posted(Run(g, Init(g, n), acts).taken[k].1)
  {
    hide Run, IsSchedule;
    RunCore(g, Init(g, n), acts);
  }

  lemma StepThen(g: Range, s: State, a: Action, acts: seq<Action>)
    requires Enabled(s, a) && IsSchedule(g, Next(g, s, a), acts)
    ensures IsSchedule(g, s, [a] + acts) && Run(g, s, [a] + acts) == Run(g, Next(g, s, a), acts)
  {
    hide Enabled, Next;
    assert ([a] + acts)[1..] == acts;
  }

  lemma RunNothing(g: Range, s: State)
    ensures IsSchedule(g, s, []) && Run(g, s, []) == s
  {
  }

  /** Every reachable state has a schedule that brings the producer to its end. */
  lemma {:induction false} Finishes(g: Range, s: State) returns (acts: seq<Action>)
    requires Inv(g, s)
    ensures IsSchedule(g, s, acts) && Run(g, s, acts).main.MDone?
    decreases Potential(g, s)
  {
    hide Inv, Potential, IsSchedule, Run, Enabled, Next;
    RunNothing(g, s);
    acts := [];
    if !s.main.MDone? {
      NoDeadlock(g, s);
      var a :| Enabled(s, a) && !Spurious(a);
      StepInv(g, s, a);
      Descends(g, s, a);
      PotentialNonNegative(g, s);
      acts := Finishes(g, Next(g, s, a));
      StepThen(g, s, a, acts);
      acts := [a] + acts;
    }
  }

  predicate Took(s: State, x: int) {
    exists k :: 0 <= k < |s.taken| && s.taken[k].1 == x
  }

  /** Some schedule hands out every number of the range, if and only if the range holds neither 0 nor
      -1; and then every schedule that finishes does. */
  lemma AllTakenIff(g: Range, n: nat)
    requires g.left <= g.right + 1 && n >= 1
    ensures (exists acts :: IsSchedule(g, Init(g, n), acts) && forall x | Holds(g, x) :: Took(Run(g, Init(g, n), acts), x))
            <==> WfRange(g)
    ensures WfRange(g) ==>
              forall acts | IsSchedule(g, Init(g, n), acts) && Run(g, Init(g, n), acts).main.MDone? ::
                forall x | Holds(g, x) :: Took(Run(g, Init(g, n), acts), x)
  {
    hide IsSchedule, Run;
    if WfRange(g) {
      forall acts | IsSchedule(g, Init(g, n), acts) && Run(g, Init(g, n), acts).main.MDone?
        ensures forall x | Holds(g, x) :: Took(Run(g, Init(g, n), acts), x)
      {
        FinishedTook(g, n, acts);
      }
      InitInv(g, n);
      var acts := Finishes(g, Init(g, n));
      FinishedTook(g, n, acts);
    } else {
      forall acts | IsSchedule(g, Init(g, n), acts)
        ensures !(forall x | Holds(g, x) :: Took(Run(g, Init(g, n), acts), x))
      {
        var x := if Holds(g, 0) then 0 else -1;
        NotTook(g, n, acts, x);
      }
    }
  }

  lemma FinishedTook(g: Range, n: nat, acts: seq<Action>)
    requires WfRange(g) && n >= 1 && IsSchedule(g, Init(g, n), acts) && Run(g, Init(g, n), acts).main.MDone?
    ensures forall x | Holds(g, x) :: Took(Run(g, Init(g, n), acts), x)
  {
    FinalOutput(g, n, acts);
    ExactlyOnce(g, n, acts);
    var s := Run(g, Init(g, n), acts);
    hide IsSchedule, Run;
    forall x | Holds(g, x)
      ensures Took(s, x)
    {
      assert s.taken[x - g.left].1 == x;
    }
  }

  lemma NotTook(g: Range, n: nat, acts: seq<Action>, x: int)
    requires IsSchedule(g, Init(g, n), acts) && !Posted(x)
    ensures !Took(Run(g, Init(g, n), acts), x)
  {
    var s := Run(g, Init(g, n), acts);
    hide IsSchedule, Run;
    if Took(s, x) {
      var k :| 0 <= k < |s.taken| && s.taken[k].1 == x;
      NeverTaken(g, n, acts, k);
    }
  }

  /** The producer has posted -1 as a number of the range, and waits for the mailbox to become empty,
      which it never does; or it has not come so far. */
  ghost predicate Jammed(g: Range, s: State) {
    && Core(s) && Holds(g, -1) && !s.main.MJoin? && !s.main.MDone?
    && (s.main.i < -1
        || (s.main.i == -1 && !s.main.MSignal? && !s.main.MUnlock?)
        || (s.main.i == -1 && s.num == -1)
        || (s.main.i == 0 && s.num == -1 && (s.main.MLock? || s.main.MCheck? || s.main.MWaiting? || s.main.MWoken?)))
  }

  lemma StepJammed(g: Range, s: State, a: Action)
    requires Jammed(g, s) && Enabled(s, a)
    ensures Jammed(g, Next(g, s, a))
  {
    StepCore(g, s, a);
  }

  lemma {:induction false} RunJammed(g: Range, s: State, acts: seq<Action>)
    requires Jammed(g, s) && IsSchedule(g, s, acts)
    ensures Jammed(g, Run(g, s, acts))
    decreases |acts|
  {
    hide Jammed, Next, Enabled;
    if acts != [] {
      StepJammed(g, s, acts[0]);
      RunJammed(g, Next(g, s, acts[0]), acts[1..]);
    }
  }

  /** A range that holds -1: the program never ends. */
  lemma NeverDone(g: Range, n: nat, acts: seq<Action>)
    requires Holds(g, -1) && IsSchedule(g, Init(g, n), acts)
    ensures !Run(g, Init(g, n), acts).main.MDone?
  {
    hide Run, IsSchedule;
    RunJammed(g, Init(g, n), acts);
  }
}
