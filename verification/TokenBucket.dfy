/** The token buckets of mytbf.c: a table of buckets that a timer refills, and what any interleaving
    of ticks and calls can take out of one of them. Sums of tokens are C ints and wrap around. */
module TokenBucket {
  const MAX: nat := 1024
  const EINVAL: int := 22

  // ----- C ints -----

  const INT_MAX: int := 0x7FFF_FFFF
  const INT_MIN: int := -0x8000_0000
  const TWO32: int := 0x1_0000_0000

  predicate IsInt(n: int) {
    INT_MIN <= n <= INT_MAX
  }

  /** A sum or difference of two ints, as it wraps around. */
  function Wrap(n: int): (r: int)
    ensures 2 * INT_MIN <= n <= 2 * INT_MAX + 1 ==> IsInt(r)
    ensures IsInt(n) ==> r == n
  {
    if n > INT_MAX then n - TWO32 else if n < INT_MIN then n + TWO32 else n
  }

  // ----- the table as a value, and one step of it -----

  datatype Info = Info(cps: int, burst: int, token: int, pos: int)

  datatype Slot = Free | Used(b: Info)

  datatype Action = Tick | Create(cps: int, burst: int) | Fetch(p: nat, size: int) | Return(p: nat, size: int) | Destroy(p: nat)

  function Min(a: int, b: int): int {
    if a < b then a else b
  }

  /** Adding tokens, then cutting what is above the burst. */
  function Add(b: Info, n: int): Info {
    b.(token := Min(Wrap(b.token + n), b.burst))
  }

  function Refill(s: Slot): Slot {
    if s.Used? then Used(Add(s.b, s.b.cps)) else Free
  }

  /** The first free slot, or the end of the table. */
  function FreePos(t: seq<Slot>): (p: nat)
    ensures p <= |t| && (p < |t| ==> t[p] == Free) && forall i | 0 <= i < p :: t[i].Used?
  {
    if |t| == 0 || t[0] == Free then 0
    else
      var p := FreePos(t[1..]);
      assert forall i | 1 <= i < p + 1 :: t[i] == t[1..][i - 1];
      p + 1
  }

  predicate Live(t: seq<Slot>, p: nat) {
    p < |t| && t[p].Used?
  }

  predicate GoodRate(cps: int, burst: int) {
    0 <= cps <= INT_MAX && 0 <= burst <= INT_MAX
  }

  /** A fetch waits until there is a token; callers use buckets they have. */
  predicate Enabled(t: seq<Slot>, a: Action) {
    match a
    case Tick => true
    case Create(cps, burst) => GoodRate(cps, burst)
    case Fetch(p, size) => Live(t, p) && IsInt(size) && (size < 0 || t[p].b.token > 0)
    case Return(p, size) => Live(t, p) && IsInt(size)
    case Destroy(p) => Live(t, p)
  }

  function Next(t: seq<Slot>, a: Action): (r: seq<Slot>)
    requires Enabled(t, a)
    ensures |r| == |t|
  {
    match a
    case Tick => seq(|t|, i requires 0 <= i < |t| => Refill(t[i]))
    case Create(cps, burst) =>
      var p := FreePos(t);
      if p < |t| then t[p := Used(Info(cps, burst, 0, p))] else t
    case Fetch(p, size) => if size < 0 then t else t[p := Used(t[p].b.(token := t[p].b.token - Min(t[p].b.token, size)))]
    case Return(p, size) => if size < 0 then t else t[p := Used(Add(t[p].b, size))]
    case Destroy(p) => t[p := Free]
  }

  ghost predicate IsRun(t: seq<Slot>, acts: seq<Action>)
    decreases |acts|
  {
    acts == [] || (Enabled(t, acts[0]) && IsRun(Next(t, acts[0]), acts[1..]))
  }

  ghost function Run(t: seq<Slot>, acts: seq<Action>): seq<Slot>
    requires IsRun(t, acts)
    decreases |acts|
  {
    if acts == [] then t else Run(Next(t, acts[0]), acts[1..])
  }

  // ----- what every run keeps -----

  predicate Ranged(b: Info) {
    GoodRate(b.cps, b.burst) && INT_MIN <= b.token <= b.burst
  }

  /** Every bucket knows its slot and holds at most its burst; overflow may have made it negative. */
  ghost predicate InRange(t: seq<Slot>) {
    forall i | 0 <= i < |t| :: t[i].Used? ==> t[i].b.pos == i && Ranged(t[i].b)
  }

  lemma StepRange(t: seq<Slot>, a: Action)
    requires InRange(t) && Enabled(t, a)
    ensures InRange(Next(t, a))
  {
  }

  lemma {:induction false} RunRange(t: seq<Slot>, acts: seq<Action>)
    requires InRange(t) && IsRun(t, acts)
    ensures InRange(Run(t, acts))
    decreases |acts|
  {
    hide InRange, Next, Enabled;
    if acts != [] {
      StepRange(t, acts[0]);
      RunRange(Next(t, acts[0]), acts[1..]);
    }
  }

  // ----- when the tokens stay between 0 and the burst -----

  /** In range, and no bucket is negative. */
  ghost predicate Inv(t: seq<Slot>) {
    forall i | 0 <= i < |t| :: t[i].Used? ==> t[i].b.pos == i && Ranged(t[i].b) && t[i].b.token >= 0
  }

  /** The sum that the step computes is an int. */
  predicate SumFits(t: seq<Slot>, a: Action) {
    match a
    case Tick => forall i | 0 <= i < |t| :: t[i].Used? ==> t[i].b.token + t[i].b.cps <= INT_MAX
    case Return(p, size) => Live(t, p) && size >= 0 ==> t[p].b.token + size <= INT_MAX
    case _ => true
  }

  lemma TickInv(t: seq<Slot>)
    requires Inv(t)
    ensures Inv(Next(t, Tick)) <==> SumFits(t, Tick)
  {
    var r := Next(t, Tick);
    if Inv(r) {
      forall i | 0 <= i < |t| && t[i].Used?
        ensures t[i].b.token + t[i].b.cps <= INT_MAX
      {
        assert r[i] == Refill(t[i]);
      }
    }
  }

  /** A step keeps the tokens between 0 and the burst if and only if its sum does not overflow. */
  lemma StepInv(t: seq<Slot>, a: Action)
    requires Inv(t) && Enabled(t, a)
    ensures Inv(Next(t, a)) <==> SumFits(t, a)
  {
    match a
    case Tick => TickInv(t);
    case Return(p, size) =>
      var r := Next(t, a);
      assert r[p].Used?;
    case _ =>
  }

  /** A full bucket can be refilled without overflow. */
  predicate Roomy(b: Info) {
    b.burst + b.cps <= INT_MAX
  }

  predicate AllRoomy(t: seq<Slot>) {
    forall i | 0 <= i < |t| :: t[i].Used? ==> Roomy(t[i].b)
  }

  /** What callers can see to: rates with room, and returns that do not overflow. */
  predicate Careful(t: seq<Slot>, a: Action) {
    match a
    case Create(cps, burst) => burst + cps <= INT_MAX
    case Return(_, _) => SumFits(t, a)
    case _ => true
  }

  ghost predicate CarefulRun(t: seq<Slot>, acts: seq<Action>)
    decreases |acts|
  {
    acts == [] || (Enabled(t, acts[0]) && Careful(t, acts[0]) && CarefulRun(Next(t, acts[0]), acts[1..]))
  }

  lemma StepRoomy(t: seq<Slot>, a: Action)
    requires Inv(t) && AllRoomy(t) && Enabled(t, a) && Careful(t, a)
    ensures SumFits(t, a) && AllRoomy(Next(t, a))
  {
  }

  lemma {:induction false} RunInv(t: seq<Slot>, acts: seq<Action>)
    requires Inv(t) && AllRoomy(t) && CarefulRun(t, acts)
    ensures IsRun(t, acts) && Inv(Run(t, acts))
    decreases |acts|
  {
    hide Inv, AllRoomy, Next, Enabled, Careful, SumFits;
    if acts != [] {
      StepRoomy(t, acts[0]);
      StepInv(t, acts[0]);
      RunInv(Next(t, acts[0]), acts[1..]);
    }
  }

  function Ticking(n: nat): seq<Action> {
    seq(n, _ => Tick)
  }

  function AfterTicks(t: seq<Slot>, n: nat): (r: seq<Slot>)
    ensures |r| == |t|
    decreases n
  {
    if n == 0 then t else AfterTicks(Next(t, Tick), n - 1)
  }

  lemma {:induction false} TickRun(t: seq<Slot>, n: nat)
    ensures CarefulRun(t, Ticking(n)) && IsRun(t, Ticking(n)) && Run(t, Ticking(n)) == AfterTicks(t, n)
    decreases n
  {
    if n > 0 {
      assert Ticking(n)[1..] == Ticking(n - 1);
      TickRun(Next(t, Tick), n - 1);
    }
  }

  /** A bucket without room overflows after some ticks, if it is left alone. */
  lemma {:induction false} TicksOverflow(t: seq<Slot>, p: nat) returns (n: nat)
    requires Inv(t) && Live(t, p) && !Roomy(t[p].b)
    ensures !Inv(AfterTicks(t, n))
    decreases t[p].b.burst - t[p].b.token
  {
    TickInv(t);
    if !SumFits(t, Tick) {
      n := 1;
      assert AfterTicks(t, 1) == AfterTicks(Next(t, Tick), 0);
    } else {
      assert t[p].b.token + t[p].b.cps <= INT_MAX;
      n := TicksOverflow(Next(t, Tick), p);
      n := n + 1;
    }
  }

  lemma CreateInv(t: seq<Slot>, cps: int, burst: int)
    requires Inv(t) && GoodRate(cps, burst) && FreePos(t) < |t|
    ensures var r := Next(t, Create(cps, burst));
            && Inv(r) && Live(r, FreePos(t)) && r[FreePos(t)].b == Info(cps, burst, 0, FreePos(t))
            && (AllRoomy(t) && burst + cps <= INT_MAX ==> AllRoomy(r))
  {
  }

  /** Over all runs of careful callers the tokens stay between 0 and the burst if and only if the new
      bucket has room, which its creator can see. */
  lemma BoundsIff(t: seq<Slot>, cps: int, burst: int)
    requires Inv(t) && AllRoomy(t) && GoodRate(cps, burst) && FreePos(t) < |t|
    ensures var r := Next(t, Create(cps, burst));
            (forall acts | IsRun(r, acts) && CarefulRun(r, acts) :: Inv(Run(r, acts))) <==> burst + cps <= INT_MAX
  {
    CreateInv(t, cps, burst);
    var r, p := Next(t, Create(cps, burst)), FreePos(t);
    if burst + cps <= INT_MAX {
      hide Inv, AllRoomy, Next, CarefulRun;
      forall acts | IsRun(r, acts) && CarefulRun(r, acts)
        ensures Inv(Run(r, acts))
      {
        RunInv(r, acts);
      }
    } else {
      assert !Roomy(r[p].b);
      hide Inv, AllRoomy, Next, CarefulRun;
      var n := TicksOverflow(r, p);
      TickRun(r, n);
      assert !Inv(Run(r, Ticking(n)));
    }
  }

  /** Two ticks, and a return, that leave a negative number of tokens. */
  lemma Overflows()
    ensures var t := [Used(Info(INT_MAX, INT_MAX, 0, 0))];
            Inv(t) && Live(AfterTicks(t, 2), 0) && AfterTicks(t, 2)[0].b.token == -2
    ensures var t := [Used(Info(0, INT_MAX, 1, 0))];
            Inv(t) && Enabled(t, Return(0, INT_MAX)) && Next(t, Return(0, INT_MAX))[0].b.token == INT_MIN
  {
    var t := [Used(Info(INT_MAX, INT_MAX, 0, 0))];
    var t1 := Next(t, Tick);
    assert t1[0].b.token == INT_MAX;
    var t2 := Next(t1, Tick);
    assert t2[0].b.token == -2;
    assert AfterTicks(t2, 0) == t2 && AfterTicks(t1, 1) == t2 && AfterTicks(t, 2) == AfterTicks(t1, 1);
  }

  // ----- how much can be taken -----

  function Ticks(acts: seq<Action>): nat {
    if acts == [] then 0 else (if acts[0].Tick? then 1 else 0) + Ticks(acts[1..])
  }

  /** What one step takes out of bucket p, a return counting as negative. */
  function Taken(t: seq<Slot>, a: Action, p: nat): int
    requires Enabled(t, a)
  {
    if a.Fetch? && a.p == p && a.size >= 0 then Min(t[p].b.token, a.size)
    else if a.Return? && a.p == p && a.size >= 0 then -a.size
    else 0
  }

  ghost function NetTaken(t: seq<Slot>, acts: seq<Action>, p: nat): int
    requires IsRun(t, acts)
    decreases |acts|
  {
    if acts == [] then 0 else Taken(t, acts[0], p) + NetTaken(Next(t, acts[0]), acts[1..], p)
  }

  /** What can be taken out of a bucket at once. */
  function Held(token: int): nat {
    if token > 0 then token else 0
  }

  /** One step: tokens that leave were there or come with a tick; the bucket stays the same one. A sum
      that overflows only loses tokens. */
  lemma StepBalance(t: seq<Slot>, a: Action, p: nat)
    requires InRange(t) && Enabled(t, a) && Live(t, p) && a != Destroy(p)
    ensures var b, r := t[p].b, Next(t, a)[p];
            && r.Used? && r.b.cps == b.cps && r.b.burst == b.burst
            && Held(r.b.token) + Taken(t, a, p) <= Held(b.token) + (if a.Tick? then b.cps else 0)
  {
  }

  lemma {:induction false} Balance(t: seq<Slot>, acts: seq<Action>, p: nat)
    requires InRange(t) && IsRun(t, acts) && Live(t, p) && Destroy(p) !in acts
    ensures var b, r := t[p].b, Run(t, acts);
            && Live(r, p) && r[p].b.cps == b.cps && r[p].b.burst == b.burst
            && Held(r[p].b.token) + NetTaken(t, acts, p) <= Held(b.token) + b.cps * Ticks(acts)
    decreases |acts|
  {
    hide InRange, Next, Enabled, Taken;
    if acts != [] {
      StepRange(t, acts[0]);
      StepBalance(t, acts[0], p);
      Balance(Next(t, acts[0]), acts[1..], p);
      Distribute(t[p].b.cps, if acts[0].Tick? then 1 else 0, Ticks(acts[1..]));
    }
  }

  lemma Distribute(c: int, a: int, b: int)
    ensures c * (a + b) == c * a + c * b
  {
  }

  /** In any window with k ticks: at most the burst and k refills. */
  lemma RateLimit(t: seq<Slot>, acts: seq<Action>, p: nat)
    requires InRange(t) && IsRun(t, acts) && Live(t, p) && Destroy(p) !in acts
    ensures NetTaken(t, acts, p) <= t[p].b.burst + t[p].b.cps * Ticks(acts)
  {
    Balance(t, acts, p);
    hide Ticks, NetTaken, Run, IsRun;
    assert Ranged(t[p].b);
  }

  /** Since its creation: at most the refills. */
  lemma RateFromCreation(t: seq<Slot>, cps: int, burst: int, acts: seq<Action>)
    requires InRange(t) && GoodRate(cps, burst) && FreePos(t) < |t|
    requires IsRun(Next(t, Create(cps, burst)), acts) && Destroy(FreePos(t)) !in acts
    ensures NetTaken(Next(t, Create(cps, burst)), acts, FreePos(t)) <= cps * Ticks(acts)
  {
    var r := Next(t, Create(cps, burst));
    StepRange(t, Create(cps, burst));
    assert r[FreePos(t)] == Used(Info(cps, burst, 0, FreePos(t)));
    hide Next, InRange;
    Balance(r, acts, FreePos(t));
  }

  // ----- when a wait ends -----

  predicate Refills(b: Info) {
    b.cps > 0 && b.burst > 0
  }

  /** A tick brings an empty or negative bucket nearer to a token, if it refills at all. */
  lemma TickWaits(t: seq<Slot>, p: nat)
    requires InRange(t) && Live(t, p) && t[p].b.token <= 0
    ensures var b, r := t[p].b, Next(t, Tick)[p];
            && r.Used? && r.b.cps == b.cps && r.b.burst == b.burst && (!Refills(b) ==> r.b.token <= 0)
            && (Refills(b) ==> r.b.token > b.token && (b.token == 0 ==> r.b.token > 0))
  {
  }

  lemma {:induction false} WaitLasts(t: seq<Slot>, p: nat, n: nat)
    requires InRange(t) && Live(t, p) && t[p].b.token <= 0 && !Refills(t[p].b)
    ensures Live(AfterTicks(t, n), p) && AfterTicks(t, n)[p].b.token <= 0
    decreases n
  {
    hide InRange, Next;
    if n > 0 {
      TickWaits(t, p);
      StepRange(t, Tick);
      WaitLasts(Next(t, Tick), p, n - 1);
    }
  }

  lemma {:induction false} WaitOver(t: seq<Slot>, p: nat) returns (n: nat)
    requires InRange(t) && Live(t, p) && Refills(t[p].b)
    ensures Live(AfterTicks(t, n), p) && AfterTicks(t, n)[p].b.token > 0
    decreases if t[p].b.token > 0 then 0 else 1 - t[p].b.token
  {
    hide InRange, Next;
    n := 0;
    if t[p].b.token <= 0 {
      TickWaits(t, p);
      StepRange(t, Tick);
      n := WaitOver(Next(t, Tick), p);
      n := n + 1;
    }
  }

  /** A fetch that waits can go on after some ticks if and only if the bucket refills at all; from no
      tokens one tick is enough. */
  lemma WaitEnds(t: seq<Slot>, p: nat, size: nat)
    requires InRange(t) && Live(t, p) && t[p].b.token <= 0 && size <= INT_MAX
    ensures (exists n: nat :: Enabled(AfterTicks(t, n), Fetch(p, size))) <==> Refills(t[p].b)
    ensures t[p].b.token == 0 && Refills(t[p].b) ==> Enabled(Next(t, Tick), Fetch(p, size))
  {
    hide InRange, Next, AfterTicks;
    TickWaits(t, p);
    if Refills(t[p].b) {
      var n := WaitOver(t, p);
      assert Enabled(AfterTicks(t, n), Fetch(p, size));
    } else {
      forall n: nat
        ensures !Enabled(AfterTicks(t, n), Fetch(p, size))
      {
        WaitLasts(t, p, n);
      }
    }
  }

  /** The table when the wait is over. */
  ghost function AfterWait(t: seq<Slot>, p: nat): (r: seq<Slot>)
    requires InRange(t) && Live(t, p) && (t[p].b.token > 0 || Refills(t[p].b))
    ensures InRange(r) && Live(r, p) && r[p].b.token > 0
    decreases if t[p].b.token > 0 then 0 else 1 - t[p].b.token
  {
    if t[p].b.token > 0 then t
    else
      TickWaits(t, p);
      StepRange(t, Tick);
      AfterWait(Next(t, Tick), p)
  }

  // ----- the buckets in memory -----

  class Bucket {
    var cps: int
    var burst: int
    var token: int
    var pos: int

    constructor (cps: int, burst: int)
      ensures this.cps == cps && this.burst == burst && token == 0
    {
      this.cps, this.burst, token, pos := cps, burst, 0, 0;
    }

    ghost function Value(): Info
      reads this
    {
      Info(cps, burst, token, pos)
    }
  }

  class Table {
    const job: array<Bucket?>

    ghost function Buckets(): set<Bucket>
      reads job
    {
      set i | 0 <= i < job.Length && job[i] != null :: job[i]
    }

    /** Slots hold different buckets, because each knows its own slot. */
    ghost predicate Valid()
      reads job, Buckets()
    {
      job.Length == MAX && forall i | 0 <= i < job.Length :: job[i] != null ==> job[i].pos == i
    }

    ghost function SlotAt(i: nat): Slot
      requires i < job.Length
      reads job, job[i]
    {
      if job[i] == null then Free else Used(job[i].Value())
    }

    ghost function Slots(): (t: seq<Slot>)
      reads job, Buckets()
      ensures |t| == job.Length
    {
      seq(job.Length, i requires 0 <= i < job.Length reads job, Buckets() => assert job[i] != null ==> job[i] in Buckets(); SlotAt(i))
    }

    /** A bucket that its owner has and has not destroyed. */
    ghost predicate Owns(me: Bucket)
      reads job, me
    {
      0 <= me.pos < job.Length && job[me.pos] == me
    }

    constructor ()
      ensures Valid() && Slots() == seq(MAX, _ => Free) && fresh(job)
    {
      job := new Bucket?[MAX](_ => null);
    }

    method AlrmHandler()
      requires Valid()
      modifies Buckets()
      ensures Valid() && Slots() == Next(old(Slots()), Tick)
    {
      ghost var t := Slots();
      for i := 0 to job.Length
        invariant Valid() && forall k: nat | k < job.Length :: SlotAt(k) == if k < i then Refill(t[k]) else t[k]
      {
        if job[i] != null {
          job[i].token := Wrap(job[i].token + job[i].cps);
          if job[i].token > job[i].burst {
            job[i].token := job[i].burst;
          }
        }
      }
    }

    method GetFreePos() returns (p: int)
      requires Valid()
      ensures p == if FreePos(Slots()) < MAX then FreePos(Slots()) else -1
    {
      for i := 0 to job.Length
        invariant forall k: nat | k < i :: job[k] != null
      {
        if job[i] == null {
          FirstFree(i);
          return i;
        }
      }
      NoneFree();
      p := -1;
    }

    lemma FirstFree(i: nat)
      requires i < job.Length && job[i] == null && forall k: nat | k < i :: job[k] != null
      ensures FreePos(Slots()) == i
    {
      var t := Slots();
      assert t[i] == SlotAt(i);
      assert forall k: nat | k < i :: t[k] == SlotAt(k);
    }

    lemma NoneFree()
      requires forall k: nat | k < job.Length :: job[k] != null
      ensures FreePos(Slots()) == job.Length
    {
      var t := Slots();
      assert forall k: nat | k < |t| :: t[k] == SlotAt(k);
    }

    method Init(cps: int, burst: int) returns (me: Bucket?)
      requires Valid() && GoodRate(cps, burst)
      modifies job
      ensures Valid() && Slots() == Next(old(Slots()), Create(cps, burst))
      ensures me == null <==> FreePos(old(Slots())) == MAX
      ensures me != null ==> fresh(me) && Owns(me) && me.pos == FreePos(old(Slots()))
    {
      ghost var t := old(Slots());
      var bucket := new Bucket(cps, burst);
      var pos := GetFreePos();
      assert Slots() == t;
      if pos < 0 {
        return null;
      }
      bucket.pos := pos;
      job[pos] := bucket;
      me := bucket;
      assert forall k: nat | k < job.Length :: SlotAt(k) == if k == pos then Used(Info(cps, burst, 0, pos)) else t[k];
    }

    lemma Seen(me: Bucket)
      requires Owns(me)
      ensures Live(Slots(), me.pos) && Slots()[me.pos].b == me.Value()
    {
      assert Slots()[me.pos] == SlotAt(me.pos);
    }

    /** While the bucket has no token pause returns after a tick; a bucket that never refills keeps the
        caller waiting for ever. */
    method Wait(me: Bucket)
      requires Valid() && Owns(me) && InRange(Slots())
      requires me.token > 0 || (me.cps > 0 && me.burst > 0)
      modifies Buckets()
      ensures Valid() && Owns(me) && me.pos == old(me.pos) && me.token > 0
      ensures Live(old(Slots()), me.pos) && (old(me.token) > 0 || Refills(old(Slots())[me.pos].b))
      ensures Slots() == AfterWait(old(Slots()), me.pos)
    {
      Seen(me);
      ghost var t := Slots();
      hide InRange, Next;
      while me.token <= 0
        invariant Valid() && Owns(me) && me.pos == old(me.pos) && InRange(Slots())
        invariant Live(t, me.pos) && (t[me.pos].b.token > 0 || Refills(t[me.pos].b))
        invariant Live(Slots(), me.pos) && Slots()[me.pos].b == me.Value()
        invariant me.token > 0 || Refills(me.Value())
        invariant AfterWait(Slots(), me.pos) == AfterWait(t, me.pos)
        decreases if me.token > 0 then 0 else 1 - me.token
      {
        TickWaits(Slots(), me.pos);
        StepRange(Slots(), Tick);
        AlrmHandler();
        Seen(me);
      }
    }

    method FetchToken(me: Bucket, size: int) returns (n: int)
      requires Valid() && Owns(me) && InRange(Slots()) && IsInt(size)
      requires size < 0 || me.token > 0 || (me.cps > 0 && me.burst > 0)
      modifies Buckets()
      ensures Valid() && Owns(me) && me.pos == old(me.pos)
      ensures size < 0 ==> n == -EINVAL && Slots() == old(Slots())
      ensures size >= 0 ==>
                && Live(old(Slots()), me.pos) && (old(me.token) > 0 || Refills(old(Slots())[me.pos].b))
                && var t := AfterWait(old(Slots()), me.pos);
                   && Enabled(t, Fetch(me.pos, size)) && Slots() == Next(t, Fetch(me.pos, size))
                   && n == Taken(t, Fetch(me.pos, size), me.pos)
    {
      if size < 0 {
        return -EINVAL;
      }
      Wait(me);
      hide AfterWait;
      ghost var t := Slots();
      Seen(me);
      n := Min(me.token, size);
      me.token := me.token - n;
      assert forall k: nat | k < job.Length :: SlotAt(k) == if k == me.pos then Used(me.Value()) else t[k];
    }

    method ReturnToken(me: Bucket, size: int) returns (r: int)
      requires Valid() && Owns(me) && IsInt(size)
      modifies me`token
      ensures Valid() && Owns(me) && Slots() == Next(old(Slots()), Return(me.pos, size))
      ensures r == if size < 0 then -EINVAL else 0
    {
      ghost var t := Slots();
      assert t[me.pos] == SlotAt(me.pos);
      if size < 0 {
        return -EINVAL;
      }
      me.token := Wrap(me.token + size);
      if me.token > me.burst {
        me.token := me.burst;
      }
      assert forall k: nat | k < job.Length :: SlotAt(k) == if k == me.pos then Used(me.Value()) else t[k];
      r := 0;
    }

    method Remove(me: Bucket)
      requires Valid() && Owns(me)
      modifies job
      ensures Valid() && Slots() == Next(old(Slots()), Destroy(me.pos)) && !Owns(me)
    {
      ghost var t := Slots();
      assert t[me.pos] == SlotAt(me.pos);
      job[me.pos] := null;
      assert forall k: nat | k < job.Length :: SlotAt(k) == if k == me.pos then Free else t[k];
    }
  }
}
