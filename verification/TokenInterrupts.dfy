/** The same buckets with the timer's signal between any two accesses of a call to a bucket. A refill
    can be lost and a bucket can hold more than its burst for a moment. Since its creation a bucket
    still gives no more than its refills; in every window it gives no more than its burst and the
    refills, if and only if a full bucket can be refilled without overflow. */
module TokenInterrupts {
  import opened TokenBucket

  /** Where the program is: between calls; in a fetch, at the test of the loop, behind it, with the
      number chosen, with the tokens loaded; in a return, before and after loading the tokens, at the
      test for the burst, behind it. */
  datatype Pc =
    | Outside
    | Waiting(p: nat, size: int)
    | Ready(p: nat, size: int)
    | Chosen(p: nat, n: int)
    | Loaded(p: nat, n: int, reg: int)
    | Giving(p: nat, size: int)
    | Given(p: nat, size: int, reg: int)
    | Testing(p: nat)
    | Capping(p: nat)

  datatype State = State(t: seq<Slot>, pc: Pc)

  datatype Event = Alarm | Call(a: Action) | Go

  predicate Can(s: State, e: Event) {
    match e
    case Alarm => true
    case Call(a) =>
      && s.pc.Outside?
      && (match a
          case Tick => false
          case Create(cps, burst) => GoodRate(cps, burst)
          case Fetch(p, size) => Live(s.t, p) && IsInt(size)
          case Return(p, size) => Live(s.t, p) && IsInt(size)
          case Destroy(p) => Live(s.t, p))
    case Go => !s.pc.Outside? && Live(s.t, s.pc.p) && (s.pc.Waiting? ==> s.t[s.pc.p].b.token > 0)
  }

  function Store(s: State, p: nat, token: int, pc: Pc): State
    requires Live(s.t, p)
  {
    State(s.t[p := Used(s.t[p].b.(token := token))], pc)
  }

  function Do(s: State, e: Event): State
    requires Can(s, e)
  {
    match e
    case Alarm => State(Next(s.t, Tick), s.pc)
    case Call(a) =>
      (match a
       case Fetch(p, size) => State(s.t, if size < 0 then Outside else Waiting(p, size))
       case Return(p, size) => State(s.t, if size < 0 then Outside else Giving(p, size))
       case _ => State(Next(s.t, a), Outside))
    case Go =>
      var b := s.t[s.pc.p].b;
      match s.pc
      case Waiting(p, size) => State(s.t, Ready(p, size))
      case Ready(p, size) => State(s.t, Chosen(p, Min(b.token, size)))
      case Chosen(p, n) => State(s.t, Loaded(p, n, b.token))
      case Loaded(p, n, reg) => Store(s, p, Wrap(reg - n), Outside)
      case Giving(p, size) => State(s.t, Given(p, size, b.token))
      case Given(p, size, reg) => Store(s, p, Wrap(reg + size), Testing(p))
      case Testing(p) => State(s.t, if b.token > b.burst then Capping(p) else Outside)
      case Capping(p) => Store(s, p, b.burst, Outside)
  }

  ghost predicate IsTrace(s: State, es: seq<Event>)
    decreases |es|
  {
    es == [] || (Can(s, es[0]) && IsTrace(Do(s, es[0]), es[1..]))
  }

  ghost function After(s: State, es: seq<Event>): State
    requires IsTrace(s, es)
    decreases |es|
  {
    if es == [] then s else After(Do(s, es[0]), es[1..])
  }

  // ----- every number is an int -----

  predicate PcInts(pc: Pc) {
    match pc
    case Waiting(_, size) => 0 <= size <= INT_MAX
    case Ready(_, size) => 0 <= size <= INT_MAX
    case Chosen(_, n) => IsInt(n)
    case Loaded(_, n, reg) => IsInt(n) && IsInt(reg)
    case Giving(_, size) => 0 <= size <= INT_MAX
    case Given(_, size, reg) => 0 <= size <= INT_MAX && IsInt(reg)
    case _ => true
  }

  predicate InfoInts(b: Info) {
    GoodRate(b.cps, b.burst) && IsInt(b.token)
  }

  ghost predicate Ints(s: State) {
    && PcInts(s.pc) && (!s.pc.Outside? ==> Live(s.t, s.pc.p))
    && forall i | 0 <= i < |s.t| :: s.t[i].Used? ==> InfoInts(s.t[i].b)
  }

  lemma RefillInts(b: Info)
    requires InfoInts(b)
    ensures InfoInts(Add(b, b.cps))
  {
  }

  lemma AlarmInts(s: State)
    requires Ints(s)
    ensures Ints(Do(s, Alarm))
  {
    hide InfoInts, PcInts;
    forall i | 0 <= i < |s.t| && s.t[i].Used?
      ensures InfoInts(Refill(s.t[i]).b)
    {
      RefillInts(s.t[i].b);
    }
  }

  lemma CallInts(s: State, a: Action)
    requires Ints(s) && Can(s, Call(a))
    ensures Ints(Do(s, Call(a)))
  {
  }

  lemma GoInts(s: State)
    requires Ints(s) && Can(s, Go)
    ensures Ints(Do(s, Go))
  {
    assert InfoInts(s.t[s.pc.p].b);
  }

  lemma StepInts(s: State, e: Event)
    requires Ints(s) && Can(s, e)
    ensures Ints(Do(s, e))
  {
    hide *;
    match e
    case Alarm => AlarmInts(s);
    case Call(a) => CallInts(s, a);
    case Go => GoInts(s);
  }

  // ----- what the program can still take -----

  function Alarms(es: seq<Event>): nat {
    if es == [] then 0 else (if es[0].Alarm? then 1 else 0) + Alarms(es[1..])
  }

  /** What the store of a fetch takes out of bucket p, that of a return counting as negative. */
  function Moved(s: State, e: Event, p: nat): int {
    if e.Go? && s.pc.Loaded? && s.pc.p == p then s.pc.n
    else if e.Go? && s.pc.Given? && s.pc.p == p then -s.pc.size
    else 0
  }

  ghost function NetMoved(s: State, es: seq<Event>, p: nat): int
    requires IsTrace(s, es)
    decreases |es|
  {
    if es == [] then 0 else Moved(s, es[0], p) + NetMoved(Do(s, es[0]), es[1..], p)
  }

  function Max(a: int, b: int): int {
    if a < b then b else a
  }

  /** What can be taken out of bucket i without another signal: what it holds, or what the call that is
      under way will take and leave in it. */
  function Claim(b: Info, i: nat, pc: Pc): int {
    if pc.Outside? || pc.p != i then Held(b.token)
    else
      match pc
      case Chosen(_, n) => Max(Held(b.token), n + Held(Wrap(b.token - n)))
      case Loaded(_, n, reg) => Max(Held(b.token), n + Held(Wrap(reg - n)))
      case Given(_, size, reg) => Max(Held(b.token), Held(Wrap(reg + size)) - size)
      case Testing(_) => Min(Held(b.token), b.burst)
      case Capping(_) => b.burst
      case _ => Held(b.token)
  }

  lemma ClaimPositive(b: Info, i: nat, pc: Pc)
    requires b.burst >= 0
    ensures Claim(b, i, pc) >= 0
  {
  }

  lemma AlarmClaim(b: Info, i: nat, pc: Pc)
    requires InfoInts(b) && PcInts(pc)
    ensures Claim(Add(b, b.cps), i, pc) <= Claim(b, i, pc) + b.cps
  {
  }

  lemma GoClaim(s: State)
    requires Ints(s) && Can(s, Go)
    ensures var p := s.pc.p;
            var r := Do(s, Go);
            && Live(r.t, p) && r.t[p].b.cps == s.t[p].b.cps && r.t[p].b.burst == s.t[p].b.burst
            && Claim(r.t[p].b, p, r.pc) + Moved(s, Go, p) <= Claim(s.t[p].b, p, s.pc)
  {
    assert InfoInts(s.t[s.pc.p].b);
  }

  /** One step, whatever overflows: what was taken and can still be taken is at most what could be, and
      the refill of a signal. */
  lemma StepMoves(s: State, e: Event, p: nat)
    requires Ints(s) && Can(s, e) && Live(s.t, p) && e != Call(Destroy(p))
    ensures var b, r := s.t[p].b, Do(s, e);
            && Live(r.t, p) && r.t[p].b.cps == b.cps && r.t[p].b.burst == b.burst
            && Claim(r.t[p].b, p, r.pc) + Moved(s, e, p) <= Claim(b, p, s.pc) + (if e.Alarm? then b.cps else 0)
  {
    match e
    case Alarm => AlarmClaim(s.t[p].b, p, s.pc);
    case Call(a) =>
    case Go =>
      if s.pc.p == p {
        GoClaim(s);
      }
  }

  lemma {:induction false} TraceMoves(s: State, es: seq<Event>, p: nat)
    requires Ints(s) && IsTrace(s, es) && Live(s.t, p) && Call(Destroy(p)) !in es
    ensures var b, r := s.t[p].b, After(s, es);
            && Live(r.t, p) && r.t[p].b.cps == b.cps && r.t[p].b.burst == b.burst
            && Claim(r.t[p].b, p, r.pc) + NetMoved(s, es, p) <= Claim(b, p, s.pc) + b.cps * Alarms(es)
    decreases |es|
  {
    hide Ints, Do, Can, Moved, Claim;
    if es != [] {
      StepInts(s, es[0]);
      StepMoves(s, es[0], p);
      TraceMoves(Do(s, es[0]), es[1..], p);
      Distribute(s.t[p].b.cps, if es[0].Alarm? then 1 else 0, Alarms(es[1..]));
    }
  }

  lemma TakenSoFar(s: State, es: seq<Event>, p: nat)
    requires Ints(s) && IsTrace(s, es) && Live(s.t, p) && Call(Destroy(p)) !in es
    ensures NetMoved(s, es, p) <= Claim(s.t[p].b, p, s.pc) + s.t[p].b.cps * Alarms(es)
  {
    assert InfoInts(s.t[p].b);
    hide Ints, NetMoved, Alarms, Claim, After, IsTrace;
    TraceMoves(s, es, p);
    var r := After(s, es);
    ClaimPositive(r.t[p].b, p, r.pc);
  }

  /** Since its creation: at most the refills, wherever the signals fall and whatever overflows. */
  lemma InterruptedFromCreation(s: State, cps: int, burst: int, es: seq<Event>)
    requires Ints(s) && s.pc.Outside? && GoodRate(cps, burst) && FreePos(s.t) < |s.t|
    requires IsTrace(Do(s, Call(Create(cps, burst))), es) && Call(Destroy(FreePos(s.t))) !in es
    ensures NetMoved(Do(s, Call(Create(cps, burst))), es, FreePos(s.t)) <= cps * Alarms(es)
  {
    var p := FreePos(s.t);
    var r := Do(s, Call(Create(cps, burst)));
    assert r.t[p] == Used(Info(cps, burst, 0, p)) && r.pc.Outside?;
    StepInts(s, Call(Create(cps, burst)));
    hide Ints, Do, NetMoved, Alarms, IsTrace;
    TakenSoFar(r, es, p);
  }

  // ----- any window -----

  /** Between the two stores of a return to bucket i. */
  predicate Returning(pc: Pc, i: nat) {
    (pc.Testing? || pc.Capping?) && pc.p == i
  }

  /** The tokens of the bucket in slot i are below its burst and above what the program has seen. */
  predicate Calm(b: Info, i: nat, pc: Pc) {
    && (Returning(pc, i) || b.token <= b.burst)
    && (!pc.Outside? && pc.p == i ==>
          match pc
          case Ready(_, _) => b.token > 0
          case Chosen(_, n) => 0 <= n <= b.token
          case Loaded(_, n, reg) => 0 <= n <= reg <= b.token
          case Given(_, _, reg) => reg <= b.burst
          case _ => true)
  }

  /** That is so of every bucket with room, however much is returned to it. */
  ghost predicate AllCalm(s: State) {
    forall i: nat | i < |s.t| && s.t[i].Used? && Roomy(s.t[i].b) :: Calm(s.t[i].b, i, s.pc)
  }

  lemma RefillCalm(b: Info, i: nat, pc: Pc)
    requires InfoInts(b) && Roomy(b) && Calm(b, i, pc)
    ensures Calm(Add(b, b.cps), i, pc)
  {
  }

  lemma AlarmCalm(s: State)
    requires Ints(s) && AllCalm(s)
    ensures AllCalm(Do(s, Alarm))
  {
    hide Calm, InfoInts;
    forall i: nat | i < |s.t| && s.t[i].Used? && Roomy(s.t[i].b)
      ensures Calm(Refill(s.t[i]).b, i, s.pc)
    {
      RefillCalm(s.t[i].b, i, s.pc);
    }
  }

  lemma CallCalm(s: State, a: Action)
    requires Ints(s) && AllCalm(s) && Can(s, Call(a))
    ensures AllCalm(Do(s, Call(a)))
  {
  }

  lemma GoCalm(s: State)
    requires Ints(s) && AllCalm(s) && Can(s, Go)
    ensures AllCalm(Do(s, Go))
  {
    assert InfoInts(s.t[s.pc.p].b);
  }

  lemma StepCalm(s: State, e: Event)
    requires Ints(s) && AllCalm(s) && Can(s, e)
    ensures AllCalm(Do(s, e))
  {
    hide *;
    match e
    case Alarm => AlarmCalm(s);
    case Call(a) => CallCalm(s, a);
    case Go => GoCalm(s);
  }

  lemma {:induction false} TraceCalm(s: State, es: seq<Event>)
    requires Ints(s) && AllCalm(s) && IsTrace(s, es)
    ensures Ints(After(s, es)) && AllCalm(After(s, es))
    decreases |es|
  {
    hide Ints, AllCalm, Do, Can;
    if es != [] {
      StepInts(s, es[0]);
      StepCalm(s, es[0]);
      TraceCalm(Do(s, es[0]), es[1..]);
    }
  }

  lemma CalmClaim(b: Info, i: nat, pc: Pc)
    requires InfoInts(b) && PcInts(pc) && Calm(b, i, pc)
    ensures Claim(b, i, pc) <= b.burst
  {
  }

  /** In any window with k signals, wherever it begins and they fall: at most the burst and k refills,
      for a bucket with room. */
  lemma InterruptedRateLimit(s: State, es: seq<Event>, p: nat)
    requires Ints(s) && AllCalm(s) && IsTrace(s, es) && Live(s.t, p) && Call(Destroy(p)) !in es
    requires Roomy(s.t[p].b)
    ensures NetMoved(s, es, p) <= s.t[p].b.burst + s.t[p].b.cps * Alarms(es)
  {
    TakenSoFar(s, es, p);
    assert InfoInts(s.t[p].b) && Calm(s.t[p].b, p, s.pc);
    hide NetMoved, Alarms, IsTrace;
    CalmClaim(s.t[p].b, p, s.pc);
  }

  // ----- and only with room -----

  lemma Prepend(s: State, e: Event, es: seq<Event>, p: nat)
    requires Can(s, e) && IsTrace(Do(s, e), es)
    ensures IsTrace(s, [e] + es) && After(s, [e] + es) == After(Do(s, e), es)
    ensures NetMoved(s, [e] + es, p) == Moved(s, e, p) + NetMoved(Do(s, e), es, p)
    ensures Alarms([e] + es) == (if e.Alarm? then 1 else 0) + Alarms(es)
  {
    hide Can, Do, Moved;
    assert ([e] + es)[1..] == es;
  }

  lemma NoEvents(s: State, p: nat)
    ensures IsTrace(s, []) && After(s, []) == s && NetMoved(s, [], p) == 0 && Alarms([]) == 0
  {
  }

  /** A fetch has chosen n tokens, and the refill behind it has overflowed so far that taking them off
      wraps around to the largest number. */
  predicate Wrapped(s: State, p: nat, n: int) {
    && Live(s.t, p) && s.pc == Chosen(p, n) && 0 < n <= INT_MAX
    && s.t[p].b.token == n + INT_MAX - TWO32
  }

  lemma FetchSteps(s: State, p: nat, size: int, es: seq<Event>) returns (r: State, more: seq<Event>)
    requires Live(s.t, p) && s.pc.Outside? && 0 < size <= s.t[p].b.token && size <= INT_MAX
    ensures r == State(s.t, Chosen(p, size)) && Call(Destroy(p)) !in [Call(Fetch(p, size)), Go, Go]
    ensures more == [Call(Fetch(p, size))] + ([Go] + ([Go] + es))
    ensures IsTrace(r, es) ==>
              && IsTrace(s, more) && After(s, more) == After(r, es) && NetMoved(s, more, p) == NetMoved(r, es, p)
              && Alarms(more) == Alarms(es)
  {
    var s1 := Do(s, Call(Fetch(p, size)));
    var s2 := Do(s1, Go);
    r := Do(s2, Go);
    more := [Call(Fetch(p, size))] + ([Go] + ([Go] + es));
    hide IsTrace, After, NetMoved, Alarms;
    if IsTrace(r, es) {
      Prepend(s2, Go, es, p);
      Prepend(s1, Go, [Go] + es, p);
      Prepend(s, Call(Fetch(p, size)), [Go] + ([Go] + es), p);
    }
  }

  /** Such a fetch, and another behind it, take more than any burst without a signal. */
  lemma WrappedTakes(s: State, p: nat, n: int) returns (es: seq<Event>)
    requires Wrapped(s, p, n)
    ensures IsTrace(s, es) && Call(Destroy(p)) !in es && Alarms(es) == 0 && NetMoved(s, es, p) == n + INT_MAX
  {
    var s1 := Do(s, Go);
    var s2 := Do(s1, Go);
    assert s2.t[p].b.token == INT_MAX;
    var s3 := State(s2.t, Chosen(p, INT_MAX));
    var s4 := Do(s3, Go);
    var s5 := Do(s4, Go);
    hide IsTrace, After, NetMoved, Alarms;
    NoEvents(s5, p);
    Prepend(s4, Go, [], p);
    Prepend(s3, Go, [Go] + [], p);
    var r, more := FetchSteps(s2, p, INT_MAX, [Go] + ([Go] + []));
    Prepend(s1, Go, more, p);
    Prepend(s, Go, [Go] + more, p);
    es := [Go] + ([Go] + more);
  }

  lemma AlarmAt(s: State, p: nat)
    requires Live(s.t, p)
    ensures var r := Do(s, Alarm); r.pc == s.pc && Live(r.t, p) && r.t[p].b == Add(s.t[p].b, s.t[p].b.cps)
  {
  }

  /** Without room, ticks fill a bucket until the next one overflows, and that one comes in a fetch. */
  lemma {:induction false} Overfill(s: State, p: nat) returns (es: seq<Event>, n: int)
    requires Live(s.t, p) && s.pc.Outside? && InfoInts(s.t[p].b) && 0 <= s.t[p].b.token <= s.t[p].b.burst
    requires !Roomy(s.t[p].b)
    ensures IsTrace(s, es) && Call(Destroy(p)) !in es && Wrapped(After(s, es), p, n)
    decreases s.t[p].b.burst - s.t[p].b.token
  {
    var b := s.t[p].b;
    AlarmAt(s, p);
    if b.token + b.cps <= INT_MAX {
      var s1 := Do(s, Alarm);
      hide IsTrace, After, Do;
      es, n := Overfill(s1, p);
      Prepend(s, Alarm, es, p);
      es := [Alarm] + es;
    } else {
      n := b.token + b.cps - INT_MAX;
      var r, more := FetchSteps(s, p, n, [Alarm] + []);
      AlarmAt(r, p);
      var s1 := Do(r, Alarm);
      hide IsTrace, After, Do, NetMoved, Alarms;
      NoEvents(s1, p);
      Prepend(r, Alarm, [], p);
      es := more;
    }
  }

  /** In a window behind any trace at most the burst and the refills are taken. */
  ghost predicate Bounded(s: State, p: nat, es: seq<Event>, window: seq<Event>) {
    IsTrace(s, es) && Call(Destroy(p)) !in es && Live(After(s, es).t, p)
    && IsTrace(After(s, es), window) && Call(Destroy(p)) !in window
    ==> var b := After(s, es).t[p].b;
        NetMoved(After(s, es), window, p) <= b.burst + b.cps * Alarms(window)
  }

  /** Every window of every interleaving from the creation of a bucket on keeps to its burst and rate, if
      and only if a full bucket can be refilled without overflow. */
  lemma InterruptedRateIff(s: State, cps: int, burst: int)
    requires Ints(s) && AllCalm(s) && s.pc.Outside? && GoodRate(cps, burst) && FreePos(s.t) < |s.t|
    ensures var r := Do(s, Call(Create(cps, burst)));
            (forall es, window :: Bounded(r, FreePos(s.t), es, window)) <==> burst + cps <= INT_MAX
  {
    var p := FreePos(s.t);
    var r := Do(s, Call(Create(cps, burst)));
    assert r.t[p] == Used(Info(cps, burst, 0, p)) && r.pc.Outside?;
    StepInts(s, Call(Create(cps, burst)));
    StepCalm(s, Call(Create(cps, burst)));
    if burst + cps <= INT_MAX {
      forall es, window
        ensures Bounded(r, p, es, window)
      {
        KeepsBounded(r, p, es, window);
      }
    } else {
      hide Ints, AllCalm, Do;
      Unbounded(r, p);
    }
  }

  lemma KeepsBounded(s: State, p: nat, es: seq<Event>, window: seq<Event>)
    requires Ints(s) && AllCalm(s) && Live(s.t, p) && Roomy(s.t[p].b)
    ensures Bounded(s, p, es, window)
  {
    hide Ints, AllCalm, IsTrace, After, NetMoved, Alarms;
    if IsTrace(s, es) && Call(Destroy(p)) !in es && Live(After(s, es).t, p)
       && IsTrace(After(s, es), window) && Call(Destroy(p)) !in window {
      TraceCalm(s, es);
      TraceMoves(s, es, p);
      InterruptedRateLimit(After(s, es), window, p);
    }
  }

  lemma Unbounded(s: State, p: nat)
    requires Live(s.t, p) && s.pc.Outside? && InfoInts(s.t[p].b) && s.t[p].b.token == 0 && !Roomy(s.t[p].b)
    requires Ints(s)
    ensures exists es, window :: !Bounded(s, p, es, window)
  {
    hide Ints, IsTrace, After, NetMoved, Alarms;
    var es, n := Overfill(s, p);
    var window := WrappedTakes(After(s, es), p, n);
    TraceMoves(s, es, p);
    assert !Bounded(s, p, es, window);
  }

  // ----- moments -----

  /** A return can leave more than the burst until its second store. */
  lemma AboveBurst()
    ensures var s := State([Used(Info(1, 5, 5, 0))], Outside);
            IsTrace(s, [Call(Return(0, 3)), Go, Go]) && After(s, [Call(Return(0, 3)), Go, Go]).t == [Used(Info(1, 5, 8, 0))]
  {
    var s := State([Used(Info(1, 5, 5, 0))], Outside);
    var s1 := Do(s, Call(Return(0, 3)));
    var s2 := Do(s1, Go);
    var s3 := Do(s2, Go);
    NoEvents(s3, 0);
    Prepend(s2, Go, [], 0);
    Prepend(s1, Go, [Go] + [], 0);
    Prepend(s, Call(Return(0, 3)), [Go] + ([Go] + []), 0);
    assert [Call(Return(0, 3))] + ([Go] + ([Go] + [])) == [Call(Return(0, 3)), Go, Go];
  }

  /** A refill in front of the store of a fetch is lost. */
  lemma RefillLost()
    ensures var s := State([Used(Info(1, 5, 2, 0))], Loaded(0, 1, 2));
            IsTrace(s, [Alarm, Go]) && After(s, [Alarm, Go]).t == [Used(Info(1, 5, 1, 0))]
  {
    var s := State([Used(Info(1, 5, 2, 0))], Loaded(0, 1, 2));
    var s1 := Do(s, Alarm);
    var s2 := Do(s1, Go);
    NoEvents(s2, 0);
    Prepend(s1, Go, [], 0);
    Prepend(s, Alarm, [Go] + [], 0);
    assert [Alarm] + ([Go] + []) == [Alarm, Go];
  }

  /** A signal between the stores of a return overflows, though neither the return nor a tick of a full
      bucket does. */
  lemma OverflowBetween()
    ensures var b := Info(1, 1, 1, 0);
            && Roomy(b) && SumFits([Used(b)], Return(0, INT_MAX - 1))
            && IsTrace(State([Used(b)], Outside), [Call(Return(0, INT_MAX - 1)), Go, Go, Alarm])
            && After(State([Used(b)], Outside), [Call(Return(0, INT_MAX - 1)), Go, Go, Alarm]).t == [Used(Info(1, 1, INT_MIN, 0))]
  {
    var s := State([Used(Info(1, 1, 1, 0))], Outside);
    var call := Call(Return(0, INT_MAX - 1));
    var s1 := Do(s, call);
    var s2 := Do(s1, Go);
    var s3 := Do(s2, Go);
    var s4 := Do(s3, Alarm);
    hide IsTrace, After;
    NoEvents(s4, 0);
    Prepend(s3, Alarm, [], 0);
    Prepend(s2, Go, [Alarm] + [], 0);
    Prepend(s1, Go, [Go] + ([Alarm] + []), 0);
    Prepend(s, call, [Go] + ([Go] + ([Alarm] + [])), 0);
    assert [call] + ([Go] + ([Go] + ([Alarm] + []))) == [call, Go, Go, Alarm];
  }
}
