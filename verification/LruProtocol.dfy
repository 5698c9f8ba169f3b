/** The buffered LRU under concurrency: users, evictors and inserters, one atomic step at a time. */
module LruProtocol {
  import R = RingProtocol
  import opened Sequences

  /** Why a thread holds the list lock: a user makes room in the ring, or an evictor works. */
  datatype Job = Refill(e: int) | EvictOldest | EvictGiven(e: int)

  datatype Stage =
    | First
    | TryFirst(x: int)
    | Flush(n: nat)
    | FlushRing(n: nat)
    | Move(n: nat, d: int)
    | Unlock(n: nat, d: int)
    | Second
    | TrySecond(x: int)
    | Walk(x: int)
    | TryWalk(x: int)
    | LastChance
    | LastRing
    | Found(x: int)

  datatype Pc =
    | Out
    | UseRead(e: int)
    | UseHeld(e: int)
    | UseRing(e: int)
    | UseWait(e: int)
    | Linking(e: int)
    | Locked(job: Job, stage: Stage)

  /** The list in order, the entries that are not linked yet with the threads that insert them, the entries whose
      `*ptr_entry` is not NULL, who holds the lock (-1: nobody), and the threads. A cache entry has one cell and one
      replacement entry, so one number stands for all three. */
  datatype Machine = Machine(ring: R.Ring, list: seq<int>, early: map<int, nat>, unlocked: set<int>, owner: int,
                             pcs: seq<Pc>)

  datatype Act = Insert(e: int) | Use(e: int) | Evict | EvictEntry(e: int) | GoOn

  function Start(len: nat, nthreads: nat): Machine {
    Machine(R.Start(len, nthreads), [], map[], {}, -1, seq(nthreads, _ => Out))
  }

  predicate Sized(m: Machine) {
    m.ring.slots != [] && |m.pcs| == |m.ring.threads|
  }

  /** The entry has been made and not been evicted. */
  predicate Present(m: Machine, e: int) {
    e in m.list || e in m.early
  }

  function Go(m: Machine, t: nat, pc: Pc): Machine
    requires t < |m.pcs|
  {
    m.(pcs := m.pcs[t := pc])
  }

  /** The lock is given back. */
  function Leave(m: Machine, t: nat, pc: Pc): Machine
    requires t < |m.pcs|
  {
    Go(m, t, pc).(owner := -1)
  }

  function RingGo(m: Machine, t: nat, act: R.Act): R.Ring
    requires Sized(m) && t < |m.pcs|
  {
    R.Apply(m.ring, t, act)
  }

  /** One atomic step of thread `t`. */
  function Step(m: Machine, t: nat, act: Act): (k: Machine)
    requires Sized(m) && t < |m.pcs|
    ensures |k.pcs| == |m.pcs|
  {
    match m.pcs[t]
    case Out => StepOut(m, t, act)
    case UseRead(e) =>
      if e in m.unlocked then Go(m, t, UseHeld(e)).(unlocked := m.unlocked - {e}) else Go(m, t, Out)
    case UseHeld(e) =>
      if m.ring.nfree > 0 then Go(m, t, UseRing(e)).(ring := RingGo(m, t, R.Enqueue(e))) else Go(m, t, UseWait(e))
    case UseRing(e) =>
      var ring := RingGo(m, t, R.GoOn);
      Go(m, t, if ring.threads[t] == R.Idle then Out else UseRing(e)).(ring := ring)
    case UseWait(e) => if m.owner == -1 then Go(m, t, Locked(Refill(e), Flush(0))).(owner := t) else m
    case Linking(e) => if m.owner == -1 then Go(m, t, Out).(list := m.list + [e], early := m.early - {e}) else m
    case Locked(job, stage) => StepLocked(m, t, job, stage)
  }

  /** Inserting begins by filling the cell, and links the entry later; a use begins by reading the cell; an eviction
      begins by taking the lock. */
  function StepOut(m: Machine, t: nat, act: Act): Machine
    requires Sized(m) && t < |m.pcs|
  {
    match act
    case Insert(e) =>
      if 0 < e && !Present(m, e)
      then Go(m, t, Linking(e)).(early := m.early[e := t], unlocked := m.unlocked + {e})
      else m
    case Use(e) => if e in m.unlocked then Go(m, t, UseRead(e)) else m
    case Evict => if m.owner == -1 then Go(m, t, Locked(EvictOldest, First)).(owner := t) else m
    case EvictEntry(e) => if m.owner == -1 then Go(m, t, Locked(EvictGiven(e), First)).(owner := t) else m
    case GoOn => m
  }

  /** The entry an evictor looks at: the oldest one, or the given one unless its cell is NULL. */
  function Target(m: Machine, job: Job): int {
    match job
    case EvictGiven(e) => if e in m.unlocked then e else 0
    case _ => if m.list == [] then 0 else m.list[0]
  }

  function NextOf(list: seq<int>, x: int): int {
    if |list| < 2 then 0 else if list[0] == x then list[1] else NextOf(list[1..], x)
  }

  /** dequeue_all is over: a user tries to enqueue again, an evictor tries its target again. */
  function Flushed(m: Machine, t: nat, job: Job): Machine
    requires t < |m.pcs|
  {
    if job.Refill? then Leave(m, t, UseHeld(job.e)) else Go(m, t, Locked(job, Second))
  }

  /** Lock the entry if its cell still points to it. */
  function TryLock(m: Machine, t: nat, job: Job, x: int, otherwise: Machine): Machine
    requires t < |m.pcs|
  {
    if x in m.unlocked then Go(m, t, Locked(job, Found(x))).(unlocked := m.unlocked - {x}) else otherwise
  }

  /** Moving an entry that is not linked does nothing, since its forward pointer is NULL. Removing one writes through its
      backward pointer, which is NULL too: the thread does not get past that. */
  function StepLocked(m: Machine, t: nat, job: Job, stage: Stage): Machine
    requires Sized(m) && t < |m.pcs|
  {
    match stage
    case First => if m.list == [] then Leave(m, t, Out) else Go(m, t, Locked(job, TryFirst(Target(m, job))))
    case TryFirst(x) => TryLock(m, t, job, x, Go(m, t, Locked(job, Flush(0))))
    case Flush(n) =>
      if m.ring.nused > 0 then Go(m, t, Locked(job, FlushRing(n))).(ring := RingGo(m, t, R.Dequeue)) else Flushed(m, t, job)
    case FlushRing(n) => StepDequeue(m, t, job, stage)
    case Move(n, d) =>
      Go(m, t, Locked(job, Unlock(n, d))).(list := if d in m.list then Without(m.list, d) + [d] else m.list)
    case Unlock(n, d) =>
      (if n + 1 < |m.ring.slots| then Go(m, t, Locked(job, Flush(n + 1))) else Flushed(m, t, job)).(unlocked := m.unlocked + {d})
    case Second => Go(m, t, Locked(job, TrySecond(Target(m, job))))
    case TrySecond(x) =>
      TryLock(m, t, job, x, if job.EvictOldest? then Go(m, t, Locked(job, Walk(x))) else Leave(m, t, Out))
    case Walk(x) =>
      var y := NextOf(m.list, x);
      Go(m, t, Locked(job, if y == 0 then LastChance else TryWalk(y)))
    case TryWalk(x) => TryLock(m, t, job, x, Go(m, t, Locked(job, Walk(x))))
    case LastChance =>
      if m.ring.nused > 0 then Go(m, t, Locked(job, LastRing)).(ring := RingGo(m, t, R.Dequeue)) else Leave(m, t, Out)
    case LastRing => StepDequeue(m, t, job, stage)
    case Found(x) => if x in m.list then Leave(m, t, Out).(list := Without(m.list, x)) else m
  }

  /** Inside ringbuf_trydequeue; when it returns, the entry is moved and unlocked, or evicted as the last chance. */
  function StepDequeue(m: Machine, t: nat, job: Job, stage: Stage): Machine
    requires Sized(m) && t < |m.pcs|
  {
    var p := m.ring.threads[t];
    var next :=
      if p.DeqTaken? then (if stage.FlushRing? then Locked(job, Move(stage.n, p.data)) else Locked(job, Found(p.data)))
      else m.pcs[t];
    Go(m, t, next).(ring := RingGo(m, t, R.GoOn))
  }

  // ---------- who holds an entry

  /** An entry, or all of them together. */
  datatype What = Of(e: int) | All

  predicate Fits(w: What, e: int) {
    w.All? || w.e == e
  }

  function StageWeight(w: What, stage: Stage): nat {
    match stage
    case Move(_, d) => OneIf(Fits(w, d))
    case Unlock(_, d) => OneIf(Fits(w, d))
    case Found(x) => OneIf(Fits(w, x))
    case _ => 0
  }

  /** How many entries (or how often this entry) a thread holds outside the ring. */
  function Weight(w: What, pc: Pc): nat {
    match pc
    case UseHeld(e) => OneIf(Fits(w, e))
    case UseWait(e) => OneIf(Fits(w, e))
    case Locked(job, stage) => (if job.Refill? then OneIf(Fits(w, job.e)) else 0) + StageWeight(w, stage)
    case _ => 0
  }

  function Sum(w: What, pcs: seq<Pc>): nat {
    if pcs == [] then 0 else Weight(w, pcs[0]) + Sum(w, pcs[1..])
  }

  lemma {:induction false} SumUpdate(w: What, pcs: seq<Pc>, t: nat, pc: Pc)
    requires t < |pcs|
    ensures Sum(w, pcs[t := pc]) + Weight(w, pcs[t]) == Sum(w, pcs) + Weight(w, pc)
  {
    var u := pcs[t := pc];
    if t == 0 {
      assert u[1..] == pcs[1..];
    } else {
      assert u[1..] == pcs[1..][t - 1 := pc];
      SumUpdate(w, pcs[1..], t - 1, pc);
    }
  }

  lemma {:induction false} SumAtLeast(w: What, pcs: seq<Pc>, t: nat)
    requires t < |pcs|
    ensures Weight(w, pcs[t]) <= Sum(w, pcs)
  {
    if t > 0 {
      SumAtLeast(w, pcs[1..], t - 1);
    }
  }

  /** Each present entry has exactly one holder: its own cell, one thread, or the ring; others have none. */
  ghost predicate Token(m: Machine, e: int) {
    OneIf(e in m.unlocked) + Sum(Of(e), m.pcs) + m.ring.accepted[e] - m.ring.returned[e] == OneIf(Present(m, e))
  }

  // ---------- unlocked entries of the list

  function Free(list: seq<int>, unlocked: set<int>): nat {
    if list == [] then 0 else OneIf(list[0] in unlocked) + Free(list[1..], unlocked)
  }

  lemma {:induction false} FreeSame(list: seq<int>, u: set<int>, v: set<int>)
    requires forall e | e in list :: e in u <==> e in v
    ensures Free(list, u) == Free(list, v)
  {
    if list != [] {
      var h := list[0];
      assert h in list && (h in u <==> h in v) && forall e | e in list[1..] :: e in list;
      FreeSame(list[1..], u, v);
    }
  }

  lemma {:induction false} FreeTake(list: seq<int>, u: set<int>, x: int)
    requires Distinct(list) && x in list && x in u
    ensures Free(list, u - {x}) + 1 == Free(list, u)
  {
    var rest := list[1..];
    assert list == [list[0]] + rest;
    if list[0] == x {
      FreeSame(rest, u - {x}, u);
    } else {
      FreeTake(rest, u, x);
    }
  }

  lemma {:induction false} FreeSnoc(list: seq<int>, u: set<int>, x: int)
    ensures Free(list + [x], u) == Free(list, u) + OneIf(x in u)
  {
    var l := list + [x];
    if list != [] {
      assert l[1..] == list[1..] + [x] && l[0] == list[0];
      FreeSnoc(list[1..], u, x);
    }
  }

  lemma {:induction false} FreeWithout(list: seq<int>, u: set<int>, x: int)
    requires x in list
    ensures Free(Without(list, x), u) + OneIf(x in u) == Free(list, u)
  {
    if list[0] != x {
      assert list == [list[0]] + list[1..];
      FreeWithout(list[1..], u, x);
      assert ([list[0]] + Without(list[1..], x))[1..] == Without(list[1..], x);
    }
  }

  /** How many entries are locked: all those listed, less the unlocked ones, and those not linked yet. */
  ghost function Taken(list: seq<int>, early: map<int, nat>, u: set<int>): int {
    |list| - Free(list, u) + |early.Keys - u|
  }

  lemma LockOne(list: seq<int>, early: map<int, nat>, u: set<int>, x: int)
    requires Distinct(list) && x in u && (x in list <==> x !in early)
    ensures Taken(list, early, u - {x}) == Taken(list, early, u) + 1
  {
    if x in list {
      FreeTake(list, u, x);
      assert early.Keys - (u - {x}) == early.Keys - u;
    } else {
      FreeSame(list, u, u - {x});
      assert early.Keys - (u - {x}) == early.Keys - u + {x};
    }
  }

  lemma FillOne(list: seq<int>, early: map<int, nat>, u: set<int>, x: int, t: nat)
    requires x !in list && x !in early && x !in u
    ensures Taken(list, early[x := t], u + {x}) == Taken(list, early, u)
  {
    FreeSame(list, u, u + {x});
    assert early[x := t].Keys - (u + {x}) == early.Keys - u;
  }

  lemma LinkOne(list: seq<int>, early: map<int, nat>, u: set<int>, x: int)
    requires x in early
    ensures Taken(list + [x], early - {x}, u) == Taken(list, early, u)
  {
    FreeSnoc(list, u, x);
    if x in u {
      assert (early - {x}).Keys - u == early.Keys - u;
    } else {
      assert early.Keys - u == (early - {x}).Keys - u + {x};
    }
  }

  lemma MoveOne(list: seq<int>, early: map<int, nat>, u: set<int>, x: int)
    requires Distinct(list) && x in list && x !in u
    ensures Taken(Without(list, x) + [x], early, u) == Taken(list, early, u)
    ensures Taken(Without(list, x), early, u) == Taken(list, early, u) - 1
  {
    WithoutMembers(list, x);
    FreeWithout(list, u, x);
    FreeSnoc(Without(list, x), u, x);
  }

  /** The number of locked entries is the number of holders. */
  ghost predicate Tally(m: Machine) {
    Taken(m.list, m.early, m.unlocked) == Sum(All, m.pcs) + |m.ring.accepted| - |m.ring.returned|
  }

  // ---------- the invariant

  /** `x` is listed and every entry before it is locked. */
  predicate LockedBefore(list: seq<int>, unlocked: set<int>, x: int) {
    list != [] && (list[0] == x || (list[0] !in unlocked && LockedBefore(list[1..], unlocked, x)))
  }

  /** The given entry, or NULL. */
  predicate IsGiven(job: Job, x: int) {
    job.EvictGiven? && (x == job.e || x == 0)
  }

  predicate StageOk(list: seq<int>, unlocked: set<int>, job: Job, stage: Stage) {
    match stage
    case First => !job.Refill?
    case TryFirst(x) => list != [] && if job.EvictOldest? then x in list else IsGiven(job, x)
    case Second => !job.Refill? && list != []
    case TrySecond(x) => if job.EvictOldest? then LockedBefore(list, unlocked, x) else IsGiven(job, x)
    case Walk(x) => job.EvictOldest? && LockedBefore(list, unlocked, x) && x !in unlocked
    case TryWalk(x) => job.EvictOldest? && LockedBefore(list, unlocked, x)
    case LastChance => job.EvictOldest? && Free(list, unlocked) == 0
    case LastRing => job.EvictOldest? && Free(list, unlocked) == 0
    case Found(x) => !job.Refill? && (job.EvictGiven? ==> x == job.e)
    case _ => job.Refill? || list != []
  }

  /** Where a thread stands in the ring, given where it stands here. */
  predicate PhaseFits(pc: Pc, p: R.Phase) {
    match pc
    case UseRing(e) => (p.EnqPermit? && p.item == e) || (p.EnqTicket? && p.item == e) || p.EnqStored?
    case Locked(_, stage) =>
      if stage.FlushRing? || stage.LastRing? then p.DeqPermit? || p.DeqTicket? || p.DeqLoaded? || p.DeqTaken? else p.Idle?
    case _ => p.Idle?
  }

  predicate ThreadOk(m: Machine, t: nat)
    requires t < |m.pcs| && |m.pcs| == |m.ring.threads|
  {
    && PhaseFits(m.pcs[t], m.ring.threads[t])
    && (m.pcs[t].Locked? <==> m.owner == t)
    && (m.pcs[t].Locked? ==> StageOk(m.list, m.unlocked, m.pcs[t].job, m.pcs[t].stage))
    && (m.pcs[t].Linking? ==> m.pcs[t].e in m.early && m.early[m.pcs[t].e] == t)
  }

  ghost predicate ListOk(m: Machine) {
    && Distinct(m.list) && (forall e | e in m.unlocked :: Present(m, e)) && (forall e | e in m.list :: 0 < e)
    && (forall e | e in m.early :: 0 < e && e !in m.list && m.early[e] < |m.pcs| && m.pcs[m.early[e]] == Linking(e))
    && -1 <= m.owner < |m.pcs|
  }

  ghost predicate Inv(m: Machine) {
    && Sized(m) && R.Inv(m.ring) && ListOk(m) && Tally(m)
    && (forall t | 0 <= t < |m.pcs| :: ThreadOk(m, t))
    && (forall e :: Token(m, e))
  }

  predicate OnlyThread(m: Machine, k: Machine, t: nat)
    requires t < |m.pcs|
  {
    && |k.pcs| == |m.pcs| && k.pcs == m.pcs[t := k.pcs[t]] && |k.ring.slots| == |m.ring.slots|
    && |k.ring.threads| == |m.ring.threads| && t < |m.ring.threads|
    && k.ring.threads == m.ring.threads[t := k.ring.threads[t]]
  }

  lemma RingThread(m: Machine, t: nat)
    requires Sized(m) && t < |m.pcs|
    ensures forall act :: var c := RingGo(m, t, act);
                          |c.slots| == |m.ring.slots| && |c.threads| == |m.ring.threads|
                          && c.threads == m.ring.threads[t := c.threads[t]]
  {
    forall act ensures var c := RingGo(m, t, act);
                       |c.slots| == |m.ring.slots| && |c.threads| == |m.ring.threads|
                       && c.threads == m.ring.threads[t := c.threads[t]]
    {
      R.OneThread(m.ring, t, act, R.Busy);
    }
  }

  lemma OnlyOneLocked(m: Machine, t: nat, job: Job, stage: Stage)
    requires Sized(m) && t < |m.pcs|
    ensures OnlyThread(m, StepLocked(m, t, job, stage), t)
  {
    hide RingGo, NextOf, Without;
    RingThread(m, t);
    assert m.pcs == m.pcs[t := m.pcs[t]] && m.ring.threads == m.ring.threads[t := m.ring.threads[t]];
  }

  /** A step changes one thread, here and in the ring. */
  lemma OnlyOne(m: Machine, t: nat, act: Act)
    requires Sized(m) && t < |m.pcs|
    ensures OnlyThread(m, Step(m, t, act), t)
  {
    hide RingGo, StepLocked;
    RingThread(m, t);
    if m.pcs[t].Locked? {
      OnlyOneLocked(m, t, m.pcs[t].job, m.pcs[t].stage);
    }
    assert m.pcs == m.pcs[t := m.pcs[t]] && m.ring.threads == m.ring.threads[t := m.ring.threads[t]];
  }

  lemma OnePc(m: Machine, t: nat, act: Act, w: What)
    requires Sized(m) && t < |m.pcs|
    ensures var k := Step(m, t, act);
            && OnlyThread(m, k, t)
            && Sum(w, k.pcs) + Weight(w, m.pcs[t]) == Sum(w, m.pcs) + Weight(w, k.pcs[t])
  {
    hide Sum, Weight, Step;
    OnlyOne(m, t, act);
    SumUpdate(w, m.pcs, t, Step(m, t, act).pcs[t]);
  }

  /** A thread that holds an entry outside the ring holds one that is there. */
  lemma HeldIsPresent(m: Machine, t: nat, e: int)
    requires Sized(m) && t < |m.pcs| && Token(m, e) && R.Inv(m.ring) && Weight(Of(e), m.pcs[t]) > 0
    ensures Present(m, e) && e !in m.unlocked
  {
    assert e != 0 ==> R.ItemOk(m.ring, e);
    SumAtLeast(Of(e), m.pcs, t);
  }

  /** What the ring does for a thread that enqueues, dequeues or goes on. */
  lemma RingEffects(m: Machine, t: nat, e: int)
    requires Sized(m) && t < |m.pcs|
    ensures var p, c := m.ring.threads[t], RingGo(m, t, R.Enqueue(e));
            p.Idle? && m.ring.nfree > 0 && e != 0 ==>
              |c.threads| == |m.ring.threads| && c.threads[t] == R.EnqPermit(e)
              && c.accepted == m.ring.accepted + multiset{e} && c.returned == m.ring.returned
    ensures var p, c := m.ring.threads[t], RingGo(m, t, R.Dequeue);
            p.Idle? && m.ring.nused > 0 ==>
              |c.threads| == |m.ring.threads| && c.threads[t] == R.DeqPermit
              && c.accepted == m.ring.accepted && c.returned == m.ring.returned
    ensures var p, c := m.ring.threads[t], RingGo(m, t, R.GoOn);
            && |c.threads| == |m.ring.threads| && c.accepted == m.ring.accepted
            && c.returned == (if p.DeqTaken? then m.ring.returned + multiset{p.data} else m.ring.returned)
            && (PhaseFits(UseRing(e), p) ==> c.threads[t].Idle? || PhaseFits(UseRing(e), c.threads[t]))
            && (p.DeqTaken? ==> c.threads[t].Idle?)
            && (p.DeqPermit? || p.DeqTicket? || p.DeqLoaded? ==>
                  c.threads[t].DeqTicket? || c.threads[t].DeqLoaded? || c.threads[t].DeqTaken?)
  {
  }

  /** What moving and removing do to membership. */
  lemma Members(m: Machine, d: int, e: int)
    requires ListOk(m) && d in m.list
    ensures e in Without(m.list, d) <==> e in m.list && e != d
    ensures e in Without(m.list, d) + [d] <==> e in m.list
    ensures |Without(m.list, d)| + 1 == |m.list|
    ensures Distinct(Without(m.list, d)) && Distinct(Without(m.list, d) + [d])
  {
    WithoutMembers(m.list, d);
  }

  lemma TokenFound(m: Machine, t: nat, e: int)
    requires Inv(m) && t < |m.pcs| && m.pcs[t].Locked? && m.pcs[t].stage.Found?
    ensures Token(Step(m, t, GoOn), e)
  {
    hide Distinct, RingGo, NextOf, Sum, Without, R.Inv, Tally, StepDequeue;
    assert ThreadOk(m, t) && Token(m, e);
    OnePc(m, t, GoOn, Of(e));
    if m.pcs[t].stage.x in m.list { Members(m, m.pcs[t].stage.x, e); }
  }

  lemma TokenMoves(m: Machine, t: nat, e: int)
    requires Inv(m) && t < |m.pcs| && m.pcs[t].Locked? && (m.pcs[t].stage.Move? || m.pcs[t].stage.Unlock?)
    ensures Token(Step(m, t, GoOn), e)
  {
    hide TryLock, StepDequeue, Distinct, RingGo, NextOf, Sum, Without, R.Inv, Tally, StageOk;
    var d := m.pcs[t].stage.d;
    assert ThreadOk(m, t) && Token(m, e) && Token(m, d);
    OnePc(m, t, GoOn, Of(e));
    HeldIsPresent(m, t, d);
    if d in m.list { Members(m, d, e); }
  }

  predicate InRing(stage: Stage) {
    stage.FlushRing? || stage.LastRing?
  }

  lemma TokenRing(m: Machine, t: nat, e: int)
    requires Inv(m) && t < |m.pcs| && m.pcs[t].Locked? && InRing(m.pcs[t].stage)
    ensures Token(Step(m, t, GoOn), e)
  {
    hide ListOk, Distinct, RingGo, NextOf, Sum, Without, R.Inv, Tally, StageOk;
    assert ThreadOk(m, t) && Token(m, e);
    OnePc(m, t, GoOn, Of(e));
    RingEffects(m, t, 0);
  }

  lemma TokenEnters(m: Machine, t: nat, e: int)
    requires Inv(m) && t < |m.pcs| && m.pcs[t].Locked? && (m.pcs[t].stage.Flush? || m.pcs[t].stage.LastChance?)
    ensures Token(Step(m, t, GoOn), e)
  {
    hide ListOk, Distinct, RingGo, NextOf, Sum, Without, R.Inv, Tally, LockedBefore, Free;
    assert ThreadOk(m, t) && Token(m, e);
    OnePc(m, t, GoOn, Of(e));
    RingEffects(m, t, 0);
  }

  lemma TokenTry(m: Machine, t: nat, e: int)
    requires Inv(m) && t < |m.pcs| && m.pcs[t].Locked? && StageWeight(All, m.pcs[t].stage) == 0
    requires var s := m.pcs[t].stage; !s.Flush? && !s.FlushRing? && !s.LastChance? && !s.LastRing?
    ensures Token(Step(m, t, GoOn), e)
  {
    hide StepDequeue, Flushed, ListOk, Distinct, RingGo, NextOf, Sum, Without, R.Inv, Tally, LockedBefore, Free;
    assert ThreadOk(m, t) && Token(m, e);
    OnePc(m, t, GoOn, Of(e));
  }

  lemma TokenUse(m: Machine, t: nat, act: Act, e: int)
    requires Inv(m) && t < |m.pcs| && !m.pcs[t].Locked?
    ensures Token(Step(m, t, act), e)
  {
    hide Distinct, RingGo, Sum, R.Inv, Tally, LockedBefore, Free, StepLocked;
    assert ThreadOk(m, t) && Token(m, e);
    OnePc(m, t, act, Of(e));
    if m.pcs[t].UseHeld? || m.pcs[t].UseRing? {
      RingEffects(m, t, m.pcs[t].e);
    }
    if m.pcs[t].UseHeld? {
      assert Token(m, m.pcs[t].e);
      HeldIsPresent(m, t, m.pcs[t].e);
    }
  }

  lemma StepToken(m: Machine, t: nat, act: Act, e: int)
    requires Inv(m) && t < |m.pcs|
    ensures Token(Step(m, t, act), e)
  {
    hide Inv, Token, Step;
    if m.pcs[t].Locked? {
      InvSized(m);
      LockedIgnores(m, t, act);
      var s := m.pcs[t].stage;
      if s.Found? {
        TokenFound(m, t, e);
      } else if StageWeight(All, s) > 0 {
        TokenMoves(m, t, e);
      } else if InRing(s) {
        TokenRing(m, t, e);
      } else if s.Flush? || s.LastChance? {
        TokenEnters(m, t, e);
      } else {
        TokenTry(m, t, e);
      }
    } else {
      TokenUse(m, t, act, e);
    }
  }

  lemma LockedIgnores(m: Machine, t: nat, act: Act)
    requires Sized(m) && t < |m.pcs| && m.pcs[t].Locked?
    ensures Step(m, t, act) == Step(m, t, GoOn)
  {
  }

  // ---------- the tally

  lemma TallyFound(m: Machine, t: nat)
    requires Inv(m) && t < |m.pcs| && m.pcs[t].Locked? && m.pcs[t].stage.Found?
    ensures Tally(Step(m, t, GoOn))
  {
    hide Taken, Distinct, RingGo, NextOf, Sum, Without, R.Inv, StepDequeue;
    var x := m.pcs[t].stage.x;
    assert ThreadOk(m, t) && Token(m, x);
    OnePc(m, t, GoOn, All);
    HeldIsPresent(m, t, x);
    if x in m.list { MoveOne(m.list, m.early, m.unlocked, x); }
  }

  lemma TallyMoves(m: Machine, t: nat)
    requires Inv(m) && t < |m.pcs| && m.pcs[t].Locked? && (m.pcs[t].stage.Move? || m.pcs[t].stage.Unlock?)
    ensures Tally(Step(m, t, GoOn))
  {
    hide TryLock, StepDequeue, Taken, Distinct, RingGo, NextOf, Sum, Without, R.Inv, StageOk;
    var d := m.pcs[t].stage.d;
    assert ThreadOk(m, t) && Token(m, d);
    OnePc(m, t, GoOn, All);
    HeldIsPresent(m, t, d);
    if d in m.list { MoveOne(m.list, m.early, m.unlocked, d); }
    LockOne(m.list, m.early, m.unlocked + {d}, d);
    assert m.unlocked + {d} - {d} == m.unlocked;
  }

  lemma TallyRing(m: Machine, t: nat)
    requires Inv(m) && t < |m.pcs| && m.pcs[t].Locked? && InRing(m.pcs[t].stage)
    ensures Tally(Step(m, t, GoOn))
  {
    hide Taken, ListOk, Distinct, RingGo, NextOf, Sum, Without, R.Inv, StageOk;
    assert ThreadOk(m, t);
    OnePc(m, t, GoOn, All);
    RingEffects(m, t, 0);
  }

  lemma TallyEnters(m: Machine, t: nat)
    requires Inv(m) && t < |m.pcs| && m.pcs[t].Locked? && (m.pcs[t].stage.Flush? || m.pcs[t].stage.LastChance?)
    ensures Tally(Step(m, t, GoOn))
  {
    hide Taken, ListOk, Distinct, RingGo, NextOf, Sum, Without, R.Inv, LockedBefore, Free;
    assert ThreadOk(m, t);
    OnePc(m, t, GoOn, All);
    RingEffects(m, t, 0);
  }

  lemma TallyTry(m: Machine, t: nat)
    requires Inv(m) && t < |m.pcs| && m.pcs[t].Locked? && StageWeight(All, m.pcs[t].stage) == 0
    requires var s := m.pcs[t].stage; !s.Flush? && !s.FlushRing? && !s.LastChance? && !s.LastRing?
    ensures Tally(Step(m, t, GoOn))
  {
    hide Taken, Distinct, RingGo, NextOf, Sum, Without, R.Inv, LockedBefore, Free;
    var s := m.pcs[t].stage;
    assert ThreadOk(m, t);
    OnePc(m, t, GoOn, All);
    if (s.TryFirst? || s.TrySecond? || s.TryWalk?) && s.x in m.unlocked {
      LockOne(m.list, m.early, m.unlocked, s.x);
    }
  }

  lemma TallyEnqueues(m: Machine, t: nat)
    requires Inv(m) && t < |m.pcs| && (m.pcs[t].UseHeld? || m.pcs[t].UseRing?)
    ensures Tally(Step(m, t, GoOn))
  {
    hide Taken, Distinct, RingGo, Sum, R.Inv, StageOk, StepLocked;
    var e := m.pcs[t].e;
    assert ThreadOk(m, t) && Token(m, e);
    OnePc(m, t, GoOn, All);
    RingEffects(m, t, e);
    if m.pcs[t].UseHeld? { HeldIsPresent(m, t, e); }
  }

  lemma TallyUse(m: Machine, t: nat, act: Act)
    requires Inv(m) && t < |m.pcs| && !m.pcs[t].Locked?
    ensures Tally(Step(m, t, act))
  {
    hide Taken, Distinct, RingGo, Sum, R.Inv, StageOk, StepLocked;
    assert ThreadOk(m, t);
    OnePc(m, t, act, All);
    match m.pcs[t] {
      case Out => if act.Insert? && !Present(m, act.e) { FillOne(m.list, m.early, m.unlocked, act.e, t); }
      case Linking(e) => LinkOne(m.list, m.early, m.unlocked, e);
      case UseRead(e) => if e in m.unlocked { LockOne(m.list, m.early, m.unlocked, e); }
      case UseHeld(_) => TallyEnqueues(m, t);
      case UseRing(_) => TallyEnqueues(m, t);
      case UseWait(_) =>
    }
  }

  lemma StepTally(m: Machine, t: nat, act: Act)
    requires Inv(m) && t < |m.pcs|
    ensures Tally(Step(m, t, act))
  {
    hide Inv, Tally, Step;
    if m.pcs[t].Locked? {
      InvSized(m);
      LockedIgnores(m, t, act);
      var s := m.pcs[t].stage;
      if s.Found? {
        TallyFound(m, t);
      } else if StageWeight(All, s) > 0 {
        TallyMoves(m, t);
      } else if InRing(s) {
        TallyRing(m, t);
      } else if s.Flush? || s.LastChance? {
        TallyEnters(m, t);
      } else {
        TallyTry(m, t);
      }
    } else {
      TallyUse(m, t, act);
    }
  }

  lemma InvSized(m: Machine)
    requires Inv(m)
    ensures Sized(m)
  {
  }

  // ---------- the list and the threads

  lemma StepListMoves(m: Machine, t: nat)
    requires Inv(m) && t < |m.pcs| && m.pcs[t].Locked? && StageWeight(All, m.pcs[t].stage) > 0
    ensures ListOk(Step(m, t, GoOn))
  {
    hide TryLock, StepDequeue, RingGo, NextOf, Sum, Without, R.Inv, Tally, LockedBefore, Free, Distinct;
    assert ThreadOk(m, t);
    OnlyOne(m, t, GoOn);
    var stage := m.pcs[t].stage;
    var d := if stage.Found? then stage.x else stage.d;
    assert Token(m, d);
    HeldIsPresent(m, t, d);
    if d in m.list {
      forall e ensures e in Without(m.list, d) <==> e in m.list && e != d
               ensures e in Without(m.list, d) + [d] <==> e in m.list
      {
        Members(m, d, e);
      }
      Members(m, d, d);
    }
  }

  lemma StepListLink(m: Machine, t: nat)
    requires Inv(m) && t < |m.pcs| && m.pcs[t].Linking?
    ensures ListOk(Step(m, t, GoOn))
  {
    hide Sum, R.Inv, Tally;
    assert ThreadOk(m, t);
    OnlyOne(m, t, GoOn);
  }

  lemma StepListTry(m: Machine, t: nat)
    requires Inv(m) && t < |m.pcs| && m.pcs[t].Locked? && StageWeight(All, m.pcs[t].stage) == 0
    ensures ListOk(Step(m, t, GoOn))
  {
    hide RingGo, NextOf, Sum, Without, R.Inv, Tally, Distinct, StageOk, PhaseFits;
    assert ThreadOk(m, t);
    OnlyOne(m, t, GoOn);
  }

  lemma StepListUse(m: Machine, t: nat, act: Act)
    requires Inv(m) && t < |m.pcs| && !m.pcs[t].Locked? && !m.pcs[t].Linking?
    ensures ListOk(Step(m, t, act))
  {
    hide RingGo, Sum, R.Inv, Tally, Distinct, StageOk, PhaseFits, StepLocked;
    assert ThreadOk(m, t);
    OnlyOne(m, t, act);
  }

  lemma StepList(m: Machine, t: nat, act: Act)
    requires Inv(m) && t < |m.pcs|
    ensures ListOk(Step(m, t, act))
  {
    hide Inv, ListOk, StepLocked, RingGo;
    InvSized(m);
    if m.pcs[t].Locked? {
      LockedIgnores(m, t, act);
      if StageWeight(All, m.pcs[t].stage) > 0 { StepListMoves(m, t); } else { StepListTry(m, t); }
    } else if m.pcs[t].Linking? {
      StepListLink(m, t);
    } else {
      StepListUse(m, t, act);
    }
  }

  /** No entry of the list is unlocked that was not before. */
  predicate Fewer(list: seq<int>, u: set<int>, v: set<int>) {
    forall e | e in list && e in v :: e in u
  }

  lemma {:induction false} LockedBeforeShrinks(list: seq<int>, u: set<int>, v: set<int>, x: int)
    requires LockedBefore(list, u, x) && Fewer(list, u, v)
    ensures LockedBefore(list, v, x)
  {
    assert list[0] in list && forall e | e in list[1..] :: e in list;
    if list[0] != x {
      LockedBeforeShrinks(list[1..], u, v, x);
    }
  }

  lemma {:induction false} FreeShrinks(list: seq<int>, u: set<int>, v: set<int>)
    requires Fewer(list, u, v)
    ensures Free(list, v) <= Free(list, u)
  {
    if list != [] {
      var h := list[0];
      assert h in list && (h in v ==> h in u) && forall e | e in list[1..] :: e in list;
      FreeShrinks(list[1..], u, v);
    }
  }

  lemma StageShrinks(list: seq<int>, u: set<int>, v: set<int>, job: Job, stage: Stage)
    requires StageOk(list, u, job, stage) && Fewer(list, u, v)
    ensures StageOk(list, v, job, stage)
  {
    hide LockedBefore, Free;
    FreeShrinks(list, u, v);
    if (stage.TrySecond? || stage.Walk? || stage.TryWalk?) && LockedBefore(list, u, stage.x) {
      BeforeIsListed(list, u, stage.x);
      LockedBeforeShrinks(list, u, v, stage.x);
    }
  }

  /** Walking on from a locked entry: the next one has only locked ones before it, or all are locked. */
  lemma {:induction false} WalkOn(list: seq<int>, u: set<int>, x: int)
    requires LockedBefore(list, u, x) && x !in u && 0 !in list
    ensures NextOf(list, x) != 0 ==> LockedBefore(list, u, NextOf(list, x))
    ensures NextOf(list, x) == 0 ==> Free(list, u) == 0
  {
    assert list == [list[0]] + list[1..];
    if list[0] != x {
      WalkOn(list[1..], u, x);
    } else if |list| >= 2 {
      assert list[1] in list;
    }
  }

  lemma OwnerActs(m: Machine, t: nat)
    requires Sized(m) && t < |m.pcs| && m.pcs[t].Locked? && m.owner == t
    ensures var k := Step(m, t, GoOn); k.early == m.early && (k.owner == t || k.owner == -1)
  {
    hide RingGo, NextOf, Without;
  }

  /** Who does not own the lock leaves the list to the owner, and unlocks no entry in it. */
  lemma OthersAct(m: Machine, t: nat, act: Act)
    requires Inv(m) && t < |m.pcs| && !m.pcs[t].Locked?
    ensures var k := Step(m, t, act);
            && (m.owner != -1 ==> k.list == m.list && k.owner == m.owner)
            && (m.owner == -1 ==> k.owner == -1 || k.owner == t)
            && (forall e | e in k.unlocked && e in m.list :: e in m.unlocked)
            && (forall e | e in m.early && m.early[e] != t :: e in k.early && k.early[e] == m.early[e])
  {
    hide RingGo, Sum, R.Inv, Tally, LockedBefore, Free, StepLocked, StageOk, PhaseFits;
    assert ThreadOk(m, t);
  }

  /** Another thread's step: the lock owner's knowledge stays true. */
  lemma ThreadOther(m: Machine, t: nat, act: Act, u: nat)
    requires Inv(m) && t < |m.pcs| && u < |m.pcs| && u != t
    ensures var k := Step(m, t, act); |k.pcs| == |m.pcs| == |k.ring.threads| && ThreadOk(k, u)
  {
    hide Step, Sum, R.Inv, Tally, LockedBefore, Free, StageOk, PhaseFits, ListOk;
    assert ThreadOk(m, t) && ThreadOk(m, u);
    OnlyOne(m, t, act);
    var k := Step(m, t, act);
    if m.pcs[t].Locked? {
      LockedIgnores(m, t, act);
      OwnerActs(m, t);
    } else {
      OthersAct(m, t, act);
      if m.owner == u {
        StageShrinks(m.list, m.unlocked, k.unlocked, m.pcs[u].job, m.pcs[u].stage);
      }
    }
  }

  lemma ThreadUse(m: Machine, t: nat, act: Act)
    requires Inv(m) && t < |m.pcs| && !m.pcs[t].Locked?
    ensures var k := Step(m, t, act); |k.pcs| == |m.pcs| == |k.ring.threads| && ThreadOk(k, t)
  {
    hide RingGo, Sum, R.Inv, Tally, LockedBefore, Free, StepLocked;
    assert ThreadOk(m, t);
    OnlyOne(m, t, act);
    if m.pcs[t].UseHeld? || m.pcs[t].UseRing? {
      RingEffects(m, t, m.pcs[t].e);
    }
    if m.pcs[t].UseHeld? {
      assert Token(m, m.pcs[t].e);
      HeldIsPresent(m, t, m.pcs[t].e);
    }
  }

  lemma ThreadRing(m: Machine, t: nat)
    requires Inv(m) && t < |m.pcs| && m.pcs[t].Locked? && InRing(m.pcs[t].stage)
    ensures var k := Step(m, t, GoOn); |k.pcs| == |m.pcs| == |k.ring.threads| && ThreadOk(k, t)
  {
    hide RingGo, NextOf, Sum, Without, R.Inv, Tally, Free, Weight, LockedBefore, ListOk;
    assert ThreadOk(m, t);
    OnlyOne(m, t, GoOn);
    RingEffects(m, t, 0);
  }

  lemma ThreadLocked(m: Machine, t: nat)
    requires Inv(m) && t < |m.pcs| && m.pcs[t].Locked?
    ensures var k := Step(m, t, GoOn); |k.pcs| == |m.pcs| == |k.ring.threads| && ThreadOk(k, t)
  {
    hide RingGo, NextOf, Sum, Without, R.Inv, Tally, Free, Weight, StepDequeue;
    var s := m.pcs[t].stage;
    assert ThreadOk(m, t);
    OnlyOne(m, t, GoOn);
    if InRing(s) {
      ThreadRing(m, t);
    } else {
      RingEffects(m, t, 0);
    }
    if s.Walk? {
      WalkOn(m.list, m.unlocked, s.x);
    }
  }

  /** Every step of every thread keeps the invariant. */
  lemma StepInv(m: Machine, t: nat, act: Act)
    requires Inv(m) && t < |m.pcs|
    ensures Inv(Step(m, t, act)) && |Step(m, t, act).pcs| == |m.pcs|
  {
    hide Step, Token, Tally, ListOk, ThreadOk, R.Inv;
    var k := Step(m, t, act);
    OnlyOne(m, t, act);
    StepList(m, t, act);
    StepTally(m, t, act);
    RingKept(m, t, act);
    forall e ensures Token(k, e) { StepToken(m, t, act, e); }
    forall u | 0 <= u < |k.pcs| ensures ThreadOk(k, u) {
      if u != t {
        ThreadOther(m, t, act, u);
      } else if m.pcs[t].Locked? {
        LockedIgnores(m, t, act);
        ThreadLocked(m, t);
      } else {
        ThreadUse(m, t, act);
      }
    }
  }

  lemma RingKept(m: Machine, t: nat, act: Act)
    requires Sized(m) && R.Inv(m.ring) && t < |m.pcs|
    ensures R.Inv(Step(m, t, act).ring)
  {
    hide R.Inv, R.Apply, NextOf, Without;
    forall a ensures R.Inv(RingGo(m, t, a)) { R.StepInv(m.ring, t, a); }
  }

  // ---------- every interleaving

  type Schedule = seq<(nat, Act)>

  predicate Schedulable(m: Machine, sched: Schedule) {
    forall i | 0 <= i < |sched| :: sched[i].0 < |m.pcs|
  }

  function Exec(m: Machine, sched: Schedule): Machine
    requires Sized(m) && Schedulable(m, sched)
    decreases |sched|
  {
    if sched == [] then m
    else
      var k := Step(m, sched[0].0, sched[0].1);
      assert Sized(k) && |k.pcs| == |m.pcs| by { OnlyOne(m, sched[0].0, sched[0].1); }
      Exec(k, sched[1..])
  }

  lemma {:induction false} NobodyYet(n: nat, w: What)
    ensures Sum(w, seq(n, _ => Out)) == 0
  {
    if n > 0 {
      assert seq(n, _ => Out)[1..] == seq(n - 1, _ => Out);
      NobodyYet(n - 1, w);
    }
  }

  lemma StartInv(len: nat, nthreads: nat)
    requires 0 < len
    ensures Inv(Start(len, nthreads))
  {
    hide Sum, R.Inv;
    var m := Start(len, nthreads);
    R.StartInv(len, nthreads);
    forall w ensures Sum(w, m.pcs) == 0 { NobodyYet(nthreads, w); }
  }

  /** Whatever the threads do, in whatever order, the invariant holds. */
  lemma {:induction false} AlwaysInv(m: Machine, sched: Schedule)
    requires Inv(m) && Schedulable(m, sched)
    ensures Sized(m) && Inv(Exec(m, sched))
    decreases |sched|
  {
    hide Inv, Step;
    InvSized(m);
    if sched != [] {
      StepInv(m, sched[0].0, sched[0].1);
      AlwaysInv(Step(m, sched[0].0, sched[0].1), sched[1..]);
    }
  }

  /** An entry is unlocked, or with one thread, or in the ring once, from the filling of its cell until its eviction; before
      and after, it is nowhere. */
  lemma OneHolder(m: Machine, e: int)
    requires Inv(m) && e != 0
    ensures OneIf(e in m.unlocked) + Sum(Of(e), m.pcs)
            + R.Copies(m.ring.slots, e) + R.Count(m.ring.threads, R.Holding(e), |m.ring.slots|) == OneIf(Present(m, e))
  {
    hide Sum, R.Copies, R.Count;
    assert Token(m, e) && R.ItemOk(m.ring, e);
  }

  /** The walk passes over linked entries only; what is moved, unlocked or removed is linked or about to be. */
  lemma LinkedOnly(m: Machine, t: nat)
    requires Inv(m) && t < |m.pcs| && m.pcs[t].Locked?
    ensures var s := m.pcs[t].stage;
            && (s.Move? || s.Unlock? ==> Present(m, s.d))
            && (s.Found? ==> Present(m, s.x))
            && (s.Walk? || s.TryWalk? ==> s.x in m.list)
            && (s.Second? ==> m.list != [])
  {
    hide Sum, R.Inv, Tally;
    assert ThreadOk(m, t);
    var s := m.pcs[t].stage;
    if StageWeight(All, s) > 0 {
      var d := if s.Found? then s.x else s.d;
      assert Token(m, d);
      HeldIsPresent(m, t, d);
    } else if s.Walk? || s.TryWalk? {
      BeforeIsListed(m.list, m.unlocked, s.x);
    }
  }

  lemma {:induction false} BeforeIsListed(list: seq<int>, u: set<int>, x: int)
    requires LockedBefore(list, u, x)
    ensures x in list
  {
    if list[0] != x {
      BeforeIsListed(list[1..], u, x);
    }
  }

  // ---------- when an eviction meets an entry that is not linked

  /** The thread is about to remove an entry that is not in the list. */
  predicate Faults(m: Machine, t: nat)
    requires t < |m.pcs|
  {
    m.pcs[t].Locked? && m.pcs[t].stage.Found? && m.pcs[t].stage.x !in m.list
  }

  /** What a thread's next step takes in order to evict it, other than by going through the list: the given entry, whose
      cell is filled, or what the ring returns as the last chance. */
  function TakenUnseen(m: Machine, t: nat): int
    requires t < |m.pcs| && t < |m.ring.threads|
  {
    match m.pcs[t]
    case Locked(EvictGiven(e), TryFirst(x)) => if x in m.unlocked then x else 0
    case Locked(EvictGiven(e), TrySecond(x)) => if x in m.unlocked then x else 0
    case Locked(_, LastRing) => if m.ring.threads[t].DeqTaken? then m.ring.threads[t].data else 0
    case _ => 0
  }

  /** What the ring has handed to a thread is there. */
  lemma DequeuedIsPresent(m: Machine, t: nat)
    requires Inv(m) && t < |m.pcs| && m.ring.threads[t].DeqTaken?
    ensures Present(m, m.ring.threads[t].data)
  {
    hide Sum, R.Copies, R.Count;
    var x := m.ring.threads[t].data;
    assert R.NoNull(m.ring.threads[t]);
    OneHolder(m, x);
    R.CountAtLeast(m.ring.threads, R.Holding(x), |m.ring.slots|, t);
  }

  /** Other than unseen, an evictor takes linked entries only. */
  lemma TriedIsListed(m: Machine, t: nat)
    requires Inv(m) && t < |m.pcs| && m.pcs[t].Locked? && m.pcs[t].job.EvictOldest?
    requires var s := m.pcs[t].stage; s.TryFirst? || s.TrySecond? || s.TryWalk?
    ensures m.pcs[t].stage.x in m.list
  {
    hide LockedBefore;
    assert ThreadOk(m, t);
    if !m.pcs[t].stage.TryFirst? {
      BeforeIsListed(m.list, m.unlocked, m.pcs[t].stage.x);
    }
  }

  /** Exactly how a thread comes to that: it takes an entry unseen whose insertion has not linked it yet. */
  lemma FaultBy(m: Machine, t: nat, act: Act, u: nat)
    requires Inv(m) && t < |m.pcs| && u < |m.pcs|
    ensures Sized(m) && u < |Step(m, t, act).pcs|
    ensures Faults(Step(m, t, act), u) <==> Faults(m, u) || (u == t && TakenUnseen(m, t) in m.early)
  {
    hide RingGo, NextOf, Sum, Without, R.Inv, Tally, Free;
    assert ThreadOk(m, t) && ThreadOk(m, u);
    OnlyOne(m, t, act);
    if m.pcs[t].Locked? && u == t {
      var s := m.pcs[t].stage;
      if m.pcs[t].job.EvictOldest? && (s.TryFirst? || s.TrySecond? || s.TryWalk?) { TriedIsListed(m, t); }
      if s.LastRing? && m.ring.threads[t].DeqTaken? { DequeuedIsPresent(m, t); }
    }
  }

  /** An entry that is not linked yet is locked only by its user, or unseen. */
  lemma EarlyStays(m: Machine, t: nat, act: Act, x: int)
    requires Inv(m) && t < |m.pcs|
    requires x in m.early ==> x in m.unlocked && m.pcs[t] != UseRead(x) && TakenUnseen(m, t) != x
    ensures Sized(m) && (x in Step(m, t, act).early ==> x in Step(m, t, act).unlocked)
  {
    hide RingGo, NextOf, Sum, Without, R.Inv, Tally, Free, LockedBefore;
    assert ThreadOk(m, t);
    if m.pcs[t].Locked? {
      var s := m.pcs[t].stage;
      if m.pcs[t].job.EvictOldest? && (s.TryFirst? || s.TrySecond? || s.TryWalk?) { TriedIsListed(m, t); }
    }
  }

  /** What the ring hands out is not unlocked. */
  lemma DequeuedIsLocked(m: Machine, t: nat)
    requires Inv(m) && t < |m.pcs| && m.ring.threads[t].DeqTaken?
    ensures m.ring.threads[t].data !in m.unlocked
  {
    hide Sum, R.Copies, R.Count;
    var x := m.ring.threads[t].data;
    assert R.NoNull(m.ring.threads[t]);
    OneHolder(m, x);
    R.CountAtLeast(m.ring.threads, R.Holding(x), |m.ring.slots|, t);
  }

  // ---------- when an eviction fails

  /** Inside repl_p_lru_use, past the point where the entry was locked. */
  predicate InUse(pc: Pc) {
    pc.UseHeld? || pc.UseRing? || pc.UseWait? || (pc.Locked? && pc.job.Refill?)
  }

  function Users(pcs: seq<Pc>): nat {
    if pcs == [] then 0 else OneIf(InUse(pcs[0])) + Users(pcs[1..])
  }

  /** If no thread is dequeuing, each user accounts for one entry. */
  lemma {:induction false} UsersHold(pcs: seq<Pc>, threads: seq<R.Phase>, len: nat)
    requires 0 < len && |pcs| == |threads|
    requires forall t | 0 <= t < |pcs| :: PhaseFits(pcs[t], threads[t])
    requires forall t | 0 <= t < |pcs| && pcs[t].Locked? ::
               !pcs[t].job.Refill? && StageWeight(All, pcs[t].stage) == 0 && threads[t].Idle?
    ensures Users(pcs) == Sum(All, pcs) + R.Count(threads, R.Laden, len) + R.Count(threads, R.Backing, len)
  {
    if pcs != [] {
      assert PhaseFits(pcs[0], threads[0]);
      UsersHold(pcs[1..], threads[1..], len);
    }
  }

  /** An eviction of the oldest entry finds nothing only when every listed entry is accounted for by a thread in the
      middle of using one; so it succeeds whenever the entries outnumber those threads. */
  lemma FailureIsJustified(m: Machine, t: nat)
    requires Inv(m) && t < |m.pcs| && m.pcs[t].Locked? && m.pcs[t].job.EvictOldest?
    requires !m.pcs[t].stage.Found? && Step(m, t, GoOn).pcs[t] == Out
    ensures |m.list| <= Users(m.pcs)
    ensures m.pcs[t].stage.LastChance? ==> |m.list| + |m.early.Keys - m.unlocked| == Users(m.pcs)
  {
    hide RingGo, Sum, LockedBefore, Free, R.Count, R.Full, Users, ListOk, NextOf;
    assert ThreadOk(m, t);
    if m.pcs[t].stage.LastChance? {
      assert m.ring.nused == 0;
      OnlyUsers(m, t);
    }
  }

  lemma OnlyUsers(m: Machine, t: nat)
    requires Inv(m) && t < |m.pcs| && m.pcs[t] == Locked(EvictOldest, LastChance) && m.ring.nused == 0
    ensures |m.list| + |m.early.Keys - m.unlocked| == Users(m.pcs)
  {
    hide Sum, LockedBefore, Free, R.Count, R.Full, Users, ListOk;
    assert ThreadOk(m, t);
    forall u | 0 <= u < |m.pcs| && m.pcs[u].Locked?
      ensures !m.pcs[u].job.Refill? && StageWeight(All, m.pcs[u].stage) == 0 && m.ring.threads[u].Idle?
    {
      assert ThreadOk(m, u);
    }
    assert forall u | 0 <= u < |m.pcs| :: ThreadOk(m, u) && PhaseFits(m.pcs[u], m.ring.threads[u]);
    UsersHold(m.pcs, m.ring.threads, |m.ring.slots|);
  }

  // ---------- reachable states

  ghost predicate Reachable(m: Machine) {
    exists len: nat, n: nat, sched: Schedule :: 0 < len && Reaches(len, n, sched, m)
  }

  ghost predicate Reaches(len: nat, n: nat, sched: Schedule, m: Machine)
    requires 0 < len
  {
    Schedulable(Start(len, n), sched) && Exec(Start(len, n), sched) == m
  }

  lemma ReachableInv(m: Machine)
    requires Reachable(m)
    ensures Inv(m)
  {
    var len: nat, n: nat, sched: Schedule :| 0 < len && Reaches(len, n, sched, m);
    StartInv(len, n);
    AlwaysInv(Start(len, n), sched);
  }

  lemma {:induction false} ExecSnoc(m: Machine, sched: Schedule, t: nat, act: Act)
    requires Sized(m) && Schedulable(m, sched) && t < |m.pcs|
    ensures var k := Exec(m, sched);
            Sized(k) && |k.pcs| == |m.pcs| && Exec(m, sched + [(t, act)]) == Step(k, t, act)
    decreases |sched|
  {
    hide Step;
    var long := sched + [(t, act)];
    if sched == [] {
      assert long[1..] == [];
    } else {
      assert long[1..] == sched[1..] + [(t, act)];
      OnlyOne(m, sched[0].0, sched[0].1);
      ExecSnoc(Step(m, sched[0].0, sched[0].1), sched[1..], t, act);
    }
  }

  lemma ReachStep(m: Machine, t: nat, act: Act)
    requires Reachable(m) && t < |m.pcs|
    ensures Sized(m) && Reachable(Step(m, t, act))
  {
    hide Step, Exec;
    var len: nat, n: nat, sched: Schedule :| 0 < len && Reaches(len, n, sched, m);
    var start := Start(len, n);
    SameThreads(start, sched);
    ExecSnoc(start, sched, t, act);
    assert Reaches(len, n, sched + [(t, act)], Step(m, t, act));
  }

  lemma {:induction false} SameThreads(m: Machine, sched: Schedule)
    requires Sized(m) && Schedulable(m, sched)
    ensures |Exec(m, sched).pcs| == |m.pcs|
    decreases |sched|
  {
    hide Step;
    if sched != [] {
      OnlyOne(m, sched[0].0, sched[0].1);
      SameThreads(Step(m, sched[0].0, sched[0].1), sched[1..]);
    }
  }

  // ---------- a failed eviction

  lemma Advance(m: Machine, t: nat, act: Act, k: Machine)
    requires Sized(m) && t < |m.pcs| && Reachable(m) && Step(m, t, act) == k
    ensures Reachable(k)
  {
    ReachStep(m, t, act);
  }

  lemma StartReachable(len: nat, n: nat)
    requires 0 < len
    ensures Reachable(Start(len, n))
  {
    assert Reaches(len, n, [], Start(len, n));
  }

  /** A ring whose first two slots hold `x` and `y` and whose others are NULL. */
  function Slots(x: int, y: int, len: nat): seq<int>
    requires 2 <= len
  {
    [x, y] + seq(len - 2, _ => 0)
  }

  lemma SlotFacts(len: nat)
    requires 2 <= len
    ensures forall x, y :: |Slots(x, y, len)| == len && Slots(x, y, len)[0] == x && Slots(x, y, len)[1] == y
    ensures Slots(0, 0, len)[0 := 1] == Slots(1, 0, len) && Slots(1, 0, len)[1 := 2] == Slots(1, 2, len)
    ensures Slots(1, 2, len)[0 := 0] == Slots(0, 2, len) && seq(len, _ => 0) == Slots(0, 0, len)
    ensures 0 % len == 0 && 1 % len == 1
  {
    R.Small(1, len);
  }

  /** Four threads and a new ring of any length. */
  function Scene0(len: nat): Machine
    requires 2 <= len
  {
    Machine(R.Ring(len, 0, 0, 0, Slots(0, 0, len),
                   [R.Idle, R.Idle, R.Idle, R.Idle], multiset{}, multiset{}),
            [], map[], {}, -1, [Out, Out, Out, Out])
  }

  lemma ReachScene0(len: nat)
    requires 2 <= len
    ensures Reachable(Scene0(len))
  {
    hide Reachable;
    StartReachable(len, 4);
    SlotFacts(len);
    assert Start(len, 4) == Scene0(len);
  }

  /** Thread 0 inserts entries 1 and 2, uses entry 1, stores it in slot 0 and stalls before it posts. */
  function Scene1(len: nat): Machine
    requires 2 <= len
  {
    Machine(R.Ring(len - 1, 0, 0, 1, Slots(1, 0, len),
                   [R.EnqStored, R.Idle, R.Idle, R.Idle], multiset{1}, multiset{}),
            [1, 2], map[], {2}, -1, [UseRing(1), Out, Out, Out])
  }

  lemma ReachScene1(len: nat)
    requires 2 <= len
    ensures Reachable(Scene1(len))
  {
    hide Reachable, Slots;
    SlotFacts(len);
    var s0 := Scene0(len);
    ReachScene0(len);
    var f1 := s0.(early := map[1 := 0], unlocked := {1}, pcs := [Linking(1), Out, Out, Out]);
    Advance(s0, 0, Insert(1), f1);
    var s1 := s0.(list := [1], unlocked := {1});
    Advance(f1, 0, GoOn, s1);
    var f2 := s1.(early := map[2 := 0], unlocked := {1, 2}, pcs := [Linking(2), Out, Out, Out]);
    Advance(s1, 0, Insert(2), f2);
    var s2 := s1.(list := [1, 2], unlocked := {1, 2});
    Advance(f2, 0, GoOn, s2);
    var s3 := s2.(pcs := [UseRead(1), Out, Out, Out]);
    Advance(s2, 0, Use(1), s3);
    var s4 := s3.(unlocked := {2}, pcs := [UseHeld(1), Out, Out, Out]);
    Advance(s3, 0, GoOn, s4);
    var s5 := s4.(ring := s4.ring.(nfree := len - 1, threads := [R.EnqPermit(1), R.Idle, R.Idle, R.Idle],
                                   accepted := multiset{1}),
                  pcs := [UseRing(1), Out, Out, Out]);
    Advance(s4, 0, GoOn, s5);
    var s6 := s5.(ring := s5.ring.(writePos := 1, threads := [R.EnqTicket(1, 0), R.Idle, R.Idle, R.Idle]));
    Advance(s5, 0, GoOn, s6);
    var s7 := s6.(ring := s6.ring.(slots := Slots(1, 0, len), threads := [R.EnqStored, R.Idle, R.Idle, R.Idle]));
    Advance(s6, 0, GoOn, s7);
  }

  /** Thread 1 uses entry 2, stores it in slot 1, posts and is done. */
  function Scene2(len: nat): Machine
    requires 2 <= len
  {
    Machine(R.Ring(len - 2, 1, 0, 2, Slots(1, 2, len),
                   [R.EnqStored, R.Idle, R.Idle, R.Idle], multiset{1, 2}, multiset{}),
            [1, 2], map[], {}, -1, [UseRing(1), Out, Out, Out])
  }

  lemma ReachScene2(len: nat)
    requires 2 <= len
    ensures Reachable(Scene2(len))
  {
    hide Reachable, Slots;
    SlotFacts(len);
    var s0 := Scene1(len);
    ReachScene1(len);
    var s1 := s0.(pcs := [UseRing(1), UseRead(2), Out, Out]);
    Advance(s0, 1, Use(2), s1);
    var s2 := s1.(unlocked := {}, pcs := [UseRing(1), UseHeld(2), Out, Out]);
    Advance(s1, 1, GoOn, s2);
    var s3 := s2.(ring := s2.ring.(nfree := len - 2, threads := [R.EnqStored, R.EnqPermit(2), R.Idle, R.Idle],
                                   accepted := multiset{1, 2}),
                  pcs := [UseRing(1), UseRing(2), Out, Out]);
    Advance(s2, 1, GoOn, s3);
    var s4 := s3.(ring := s3.ring.(writePos := 2, threads := [R.EnqStored, R.EnqTicket(2, 1), R.Idle, R.Idle]));
    Advance(s3, 1, GoOn, s4);
    var s5 := s4.(ring := s4.ring.(slots := Slots(1, 2, len), threads := [R.EnqStored, R.EnqStored, R.Idle, R.Idle]));
    Advance(s4, 1, GoOn, s5);
    var s6 := s5.(ring := s5.ring.(nused := 1, threads := [R.EnqStored, R.Idle, R.Idle, R.Idle]),
                  pcs := [UseRing(1), Out, Out, Out]);
    Advance(s5, 1, GoOn, s6);
  }

  /** Thread 3 evicts: it finds entry 1 locked and starts to flush; the post admits it, with a ticket for slot 0. */
  function Scene3(len: nat): Machine
    requires 2 <= len
  {
    Machine(R.Ring(len - 2, 0, 1, 2, Slots(1, 2, len),
                   [R.EnqStored, R.Idle, R.Idle, R.DeqTicket(0)], multiset{1, 2}, multiset{}),
            [1, 2], map[], {}, 3, [UseRing(1), Out, Out, Locked(EvictOldest, FlushRing(0))])
  }

  lemma ReachScene3(len: nat)
    requires 2 <= len
    ensures Reachable(Scene3(len))
  {
    hide Reachable, Slots;
    SlotFacts(len);
    var s0 := Scene2(len);
    ReachScene2(len);
    var s1 := s0.(owner := 3, pcs := [UseRing(1), Out, Out, Locked(EvictOldest, First)]);
    Advance(s0, 3, Evict, s1);
    var s2 := s1.(pcs := [UseRing(1), Out, Out, Locked(EvictOldest, TryFirst(1))]);
    Advance(s1, 3, GoOn, s2);
    var s3 := s2.(pcs := [UseRing(1), Out, Out, Locked(EvictOldest, Flush(0))]);
    Advance(s2, 3, GoOn, s3);
    var s4 := s3.(ring := s3.ring.(nused := 0, threads := [R.EnqStored, R.Idle, R.Idle, R.DeqPermit]),
                  pcs := [UseRing(1), Out, Out, Locked(EvictOldest, FlushRing(0))]);
    Advance(s3, 3, GoOn, s4);
    var s5 := s4.(ring := s4.ring.(readPos := 1, threads := [R.EnqStored, R.Idle, R.Idle, R.DeqTicket(0)]));
    Advance(s4, 3, GoOn, s5);
  }

  /** It takes entry 1 from slot 0, moves it to the tail and unlocks it. */
  function Scene4(len: nat): Machine
    requires 2 <= len
  {
    Machine(R.Ring(len - 1, 0, 1, 2, Slots(0, 2, len),
                   [R.EnqStored, R.Idle, R.Idle, R.Idle], multiset{1, 2}, multiset{1}),
            [2, 1], map[], {1}, 3, [UseRing(1), Out, Out, Locked(EvictOldest, Flush(1))])
  }

  lemma ReachScene4(len: nat)
    requires 2 <= len
    ensures Reachable(Scene4(len))
  {
    hide Reachable, Slots;
    SlotFacts(len);
    var s0 := Scene3(len);
    ReachScene3(len);
    var s1 := s0.(ring := s0.ring.(threads := [R.EnqStored, R.Idle, R.Idle, R.DeqLoaded(0, 1)]));
    Advance(s0, 3, GoOn, s1);
    var s2 := s1.(ring := s1.ring.(slots := Slots(0, 2, len),
                                   threads := [R.EnqStored, R.Idle, R.Idle, R.DeqTaken(1)]));
    Advance(s1, 3, GoOn, s2);
    var s3 := s2.(ring := s2.ring.(nfree := len - 1, threads := [R.EnqStored, R.Idle, R.Idle, R.Idle],
                                   returned := multiset{1}),
                  pcs := [UseRing(1), Out, Out, Locked(EvictOldest, Move(0, 1))]);
    Advance(s2, 3, GoOn, s3);
    var s4 := s3.(list := [2, 1], pcs := [UseRing(1), Out, Out, Locked(EvictOldest, Unlock(0, 1))]);
    Advance(s3, 3, GoOn, s4);
    var s5 := s4.(unlocked := {1}, pcs := [UseRing(1), Out, Out, Locked(EvictOldest, Flush(1))]);
    Advance(s4, 3, GoOn, s5);
  }

  /** Thread 2 locks entry 1 again; thread 3 then finds both entries locked and nothing posted. */
  function Scene5(len: nat): Machine
    requires 2 <= len
  {
    Machine(R.Ring(len - 1, 0, 1, 2, Slots(0, 2, len),
                   [R.EnqStored, R.Idle, R.Idle, R.Idle], multiset{1, 2}, multiset{1}),
            [2, 1], map[], {}, 3, [UseRing(1), Out, UseHeld(1), Locked(EvictOldest, LastChance)])
  }

  lemma ReachScene5(len: nat)
    requires 2 <= len
    ensures Reachable(Scene5(len))
  {
    hide Reachable, Slots;
    SlotFacts(len);
    var s0 := Scene4(len);
    ReachScene4(len);
    var s1 := s0.(pcs := [UseRing(1), Out, UseRead(1), Locked(EvictOldest, Flush(1))]);
    Advance(s0, 2, Use(1), s1);
    var s2 := s1.(unlocked := {}, pcs := [UseRing(1), Out, UseHeld(1), Locked(EvictOldest, Flush(1))]);
    Advance(s1, 2, GoOn, s2);
    var s3 := s2.(pcs := [UseRing(1), Out, UseHeld(1), Locked(EvictOldest, Second)]);
    Advance(s2, 3, GoOn, s3);
    var s4 := s3.(pcs := [UseRing(1), Out, UseHeld(1), Locked(EvictOldest, TrySecond(2))]);
    Advance(s3, 3, GoOn, s4);
    var s5 := s4.(pcs := [UseRing(1), Out, UseHeld(1), Locked(EvictOldest, Walk(2))]);
    Advance(s4, 3, GoOn, s5);
    var s6 := s5.(pcs := [UseRing(1), Out, UseHeld(1), Locked(EvictOldest, TryWalk(1))]);
    Advance(s5, 3, GoOn, s6);
    var s7 := s6.(pcs := [UseRing(1), Out, UseHeld(1), Locked(EvictOldest, Walk(1))]);
    Advance(s6, 3, GoOn, s7);
    var s8 := s7.(pcs := [UseRing(1), Out, UseHeld(1), Locked(EvictOldest, LastChance)]);
    Advance(s7, 3, GoOn, s8);
  }

  /** Some thread in the middle of using this entry. */
  ghost predicate HasUser(m: Machine, e: int) {
    exists t :: 0 <= t < |m.pcs| && InUse(m.pcs[t]) && UserOf(m.pcs[t]) == e
  }

  ghost predicate AllHeldByUsers(m: Machine) {
    forall e | e in m.list :: HasUser(m, e)
  }

  function UserOf(pc: Pc): int {
    match pc
    case UseHeld(e) => e
    case UseWait(e) => e
    case UseRing(e) => e
    case Locked(Refill(e), _) => e
    case _ => 0
  }

  /** The user who stored this entry in its slot has not posted yet. */
  ghost predicate NotPosted(m: Machine, e: int)
    requires Sized(m)
  {
    exists t :: 0 <= t < |m.pcs| && m.pcs[t] == UseRing(e) && m.ring.threads[t] == R.EnqStored
  }

  lemma {:induction false} SumWitness(w: What, pcs: seq<Pc>) returns (t: nat)
    requires Sum(w, pcs) > 0
    ensures t < |pcs| && Weight(w, pcs[t]) > 0
  {
    if Weight(w, pcs[0]) > 0 {
      t := 0;
    } else {
      var u := SumWitness(w, pcs[1..]);
      t := u + 1;
    }
  }

  /** A locked entry that is in no slot has its user. */
  lemma OutsideSlots(m: Machine, t: nat, e: int)
    requires Inv(m) && t < |m.pcs| && m.pcs[t] == Locked(EvictOldest, LastChance) && e in m.list
    requires R.Copies(m.ring.slots, e) == 0 && e !in m.unlocked
    ensures HasUser(m, e)
  {
    hide Sum, R.Count, R.Copies, LockedBefore, Free;
    OneHolder(m, e);
    var u: nat;
    if Sum(Of(e), m.pcs) > 0 {
      u := SumWitness(Of(e), m.pcs);
    } else {
      u := R.CountWitness(m.ring.threads, R.Holding(e), |m.ring.slots|);
    }
    assert ThreadOk(m, u) && ThreadOk(m, t);
    UserAt(m, u);
  }

  lemma {:induction false} AllLocked(list: seq<int>, u: set<int>, e: int)
    requires Free(list, u) == 0 && e in list
    ensures e !in u
  {
    if list[0] != e {
      AllLocked(list[1..], u, e);
    }
  }

  /** The user of an entry that is in a slot has stored it and not posted. */
  lemma InSlotUser(m: Machine, t: nat, e: int, u: nat)
    requires Inv(m) && t < |m.pcs| && m.pcs[t] == Locked(EvictOldest, LastChance) && e != 0
    requires R.Copies(m.ring.slots, e) > 0 && u < |m.pcs| && InUse(m.pcs[u]) && UserOf(m.pcs[u]) == e
    ensures NotPosted(m, e)
  {
    hide Sum, R.Count, R.Copies, LockedBefore, Free;
    OneHolder(m, e);
    assert ThreadOk(m, u) && ThreadOk(m, t);
    SumAtLeast(Of(e), m.pcs, u);
    if R.Is(R.Holding(e), m.ring.threads[u], |m.ring.slots|) {
      R.CountAtLeast(m.ring.threads, R.Holding(e), |m.ring.slots|, u);
    }
  }

  /** Exactly when a failed eviction finds every listed entry in its user's hands:
      when each listed entry in a slot still has the user who stored it waiting to post. */
  lemma HeldExactlyWhen(m: Machine, t: nat)
    requires Inv(m) && t < |m.pcs| && m.pcs[t] == Locked(EvictOldest, LastChance)
    ensures AllHeldByUsers(m) <==>
              forall s | 0 <= s < |m.ring.slots| && m.ring.slots[s] in m.list :: NotPosted(m, m.ring.slots[s])
  {
    hide HasUser, NotPosted, Sum, R.Count, LockedBefore, Free;
    assert ThreadOk(m, t);
    if AllHeldByUsers(m) {
      forall s | 0 <= s < |m.ring.slots| && m.ring.slots[s] in m.list ensures NotPosted(m, m.ring.slots[s]) {
        var e := m.ring.slots[s];
        assert R.Copies(m.ring.slots, e) > 0;
        OneHolder(m, e);
        var u := PickUser(m, e);
        InSlotUser(m, t, e, u);
      }
    }
    if forall s | 0 <= s < |m.ring.slots| && m.ring.slots[s] in m.list :: NotPosted(m, m.ring.slots[s]) {
      forall e | e in m.list ensures HasUser(m, e) {
        AllLocked(m.list, m.unlocked, e);
        if R.Copies(m.ring.slots, e) > 0 {
          StoredHasUser(m, e);
        } else {
          OutsideSlots(m, t, e);
        }
      }
    }
  }

  lemma PickUser(m: Machine, e: int) returns (u: nat)
    requires HasUser(m, e)
    ensures u < |m.pcs| && InUse(m.pcs[u]) && UserOf(m.pcs[u]) == e
  {
    u :| 0 <= u < |m.pcs| && InUse(m.pcs[u]) && UserOf(m.pcs[u]) == e;
  }

  lemma StoredHasUser(m: Machine, e: int)
    requires Sized(m) && e in m.list && R.Copies(m.ring.slots, e) > 0
    requires forall s | 0 <= s < |m.ring.slots| && m.ring.slots[s] in m.list :: NotPosted(m, m.ring.slots[s])
    ensures HasUser(m, e)
  {
    assert e in m.ring.slots;
    assert NotPosted(m, e);
    var t :| 0 <= t < |m.pcs| && m.pcs[t] == UseRing(e) && m.ring.threads[t] == R.EnqStored;
    UserAt(m, t);
  }

  lemma UserAt(m: Machine, t: int)
    requires 0 <= t < |m.pcs| && InUse(m.pcs[t])
    ensures HasUser(m, UserOf(m.pcs[t]))
  {
    var pc := m.pcs[t];
    assert InUse(pc);
  }

  /** Entry by entry the claim is false: this eviction fails although entry 2, left in slot 1, is in no user's hands.
      The stalled user of entry 1 is what makes the numbers agree. */
  lemma FailureBesideUsers(len: nat)
    requires 2 <= len
    ensures var m := Scene5(len);
            && Reachable(m) && Sized(m) && |m.ring.slots| == len
            && m.pcs[3] == Locked(EvictOldest, LastChance) && Step(m, 3, GoOn).pcs[3] == Out
            && !AllHeldByUsers(m) && |m.list| == Users(m.pcs)
  {
    hide Reachable;
    ReachScene5(len);
    SlotFacts(len);
    var m := Scene5(len);
    assert 2 in m.list && !HasUser(m, 2);
    assert Step(m, 3, GoOn).pcs[3] == Out;
    ReachableInv(m);
    FailureIsJustified(m, 3);
  }
}
