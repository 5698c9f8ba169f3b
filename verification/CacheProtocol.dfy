/** References and replacement together: puts, gets and evictions on one cache, one atomic step at a time. */
module CacheProtocol {
  import opened Sequences
  import E = EntryLifetime
  import L = LruProtocol

  /** The entries' lives and the buffered LRU. */
  datatype Joint = Joint(life: E.System, lru: L.Machine)

  datatype Act = Put | Get(e: int) | Use | EvictAny | EvictKey(e: int) | GoOn

  function Start(len: nat, nthreads: nat): Joint {
    Joint(E.Start(nthreads), L.Start(len, nthreads))
  }

  predicate Sized(j: Joint) {
    L.Sized(j.lru) && |j.life.pcs| == |j.lru.pcs|
  }

  // ---------- the steps

  /** One atomic step of thread `t`. */
  function Step(j: Joint, t: nat, act: Act): Joint
    requires Sized(j) && t < |j.life.pcs|
  {
    match j.lru.pcs[t]
    case Out => Outside(j, t, act)
    case Linking(_) => Link(j, t)
    case _ => Inside(j, t)
  }

  /** In the cache's own code, about to go on there or to call the replacement policy. */
  function Outside(j: Joint, t: nat, act: Act): Joint
    requires Sized(j) && t < |j.life.pcs|
  {
    match j.life.pcs[t]
    case Out => Begin(j, t, act)
    case PutLink(e) => j.(lru := L.Step(j.lru, t, L.Insert(e)))
    case Holding(e) => if act == Use then j.(lru := L.Step(j.lru, t, L.Use(e))) else j.(life := E.Step(j.life, t, E.GoOn))
    case KeyWon(e) => j.(lru := L.Step(j.lru, t, L.EvictEntry(e)))
    case _ => j.(life := E.Step(j.life, t, E.GoOn))
  }

  function Begin(j: Joint, t: nat, act: Act): Joint
    requires Sized(j) && t < |j.life.pcs|
  {
    match act
    case Put => j.(life := E.Step(j.life, t, E.Put))
    case Get(e) => j.(life := E.Step(j.life, t, E.Get(e)))
    case EvictKey(e) => j.(life := E.Step(j.life, t, E.EvictKey(e)))
    case EvictAny => j.(lru := L.Step(j.lru, t, L.Evict))
    case _ => j
  }

  /** Under the list's lock, the entry is acquired for the list and linked. */
  function Link(j: Joint, t: nat): Joint
    requires Sized(j) && t < |j.life.pcs|
  {
    if j.lru.owner == -1 then Joint(E.Step(j.life, t, E.GoOn), L.Step(j.lru, t, L.GoOn)) else j
  }

  /** A step in the replacement policy's code, perhaps the last one. */
  function Inside(j: Joint, t: nat): Joint
    requires Sized(j) && t < |j.life.pcs|
  {
    var k := L.Step(j.lru, t, L.GoOn);
    if k.pcs[t].Out? then Joint(Returned(j, t), k) else j.(lru := k)
  }

  /** The replacement policy returns to an evictor with an entry or with nothing. */
  function Returned(j: Joint, t: nat): E.System
    requires Sized(j) && t < |j.life.pcs|
  {
    var pc := j.lru.pcs[t];
    var found := pc.Locked? && pc.stage.Found?;
    match j.life.pcs[t]
    case Out => if found then E.Step(j.life, t, E.EvictAny(pc.stage.x)) else j.life
    case KeyWon(_) => E.Step(j.life, t, if found then E.GoOn else E.Busy)
    case _ => j.life
  }

  // ---------- the invariant

  /** A thread in the replacement policy's code is there on behalf of what it does in the cache's. */
  predicate ErrandOk(j: Joint, t: nat)
    requires t < |j.life.pcs| && t < |j.lru.pcs|
  {
    var pc := j.life.pcs[t];
    && (pc.PutLink? ==> 0 < pc.e)
    && match j.lru.pcs[t]
       case Out => true
       case Linking(e) => pc == E.PutLink(e)
       case Locked(job, _) =>
         (match job
          case Refill(e) => pc == E.Holding(e)
          case EvictOldest => pc.Out?
          case EvictGiven(e) => pc == E.KeyWon(e))
       case use => pc == E.Holding(use.e)
  }

  ghost predicate Inv(j: Joint) {
    && Sized(j) && E.Inv(j.life) && L.Inv(j.lru) && 0 < j.life.nextId
    && (forall e :: e in j.lru.list <==> e in j.life.listed)
    && (forall t | 0 <= t < |j.life.pcs| :: ErrandOk(j, t))
  }

  lemma InvFacts(j: Joint)
    requires Inv(j)
    ensures Sized(j) && E.Inv(j.life) && L.Inv(j.lru)
  {
  }

  // ---------- what a step leaves alone

  lemma LruAlone(m: L.Machine, t: nat, act: L.Act)
    requires L.Inv(m) && t < |m.pcs|
    ensures L.Sized(m)
    ensures var k := L.Step(m, t, act); L.Inv(k) && L.Sized(k) && |k.pcs| == |m.pcs| && k.pcs == m.pcs[t := k.pcs[t]]
  {
    L.OnlyOne(m, t, act);
    L.StepInv(m, t, act);
    hide L.Step, L.R.Inv, L.Token, L.ListOk, L.Tally;
  }

  lemma LifeAlone(m: E.System, t: nat, act: E.Act)
    requires E.Inv(m) && t < |m.pcs|
    ensures var k := E.Step(m, t, act);
            E.Inv(k) && |k.pcs| == |m.pcs| && k.pcs == m.pcs[t := k.pcs[t]] && m.nextId <= k.nextId
  {
    E.StepInv(m, t, act);
    hide E.Inv;
    assert m.pcs == m.pcs[t := m.pcs[t]];
  }

  /** Both parts have stepped as they may, and thread `t` and the list are in order: so is everything. */
  lemma Assemble(j: Joint, k: Joint, t: nat)
    requires Inv(j) && t < |j.life.pcs| && E.Inv(k.life) && L.Inv(k.lru) && L.Sized(k.lru)
    requires |k.life.pcs| == |j.life.pcs| && |k.lru.pcs| == |j.lru.pcs|
    requires k.life.pcs == j.life.pcs[t := k.life.pcs[t]] && k.lru.pcs == j.lru.pcs[t := k.lru.pcs[t]]
    requires j.life.nextId <= k.life.nextId && ErrandOk(k, t)
    requires forall e :: e in k.lru.list <==> e in k.life.listed
    ensures Inv(k)
  {
    hide E.Inv, L.Inv;
    forall u | 0 <= u < |k.life.pcs| ensures ErrandOk(k, u) { assert ErrandOk(j, u); }
  }

  /** A thread keeps at its errand until it leaves, and takes no entry from the list unless it has found one. */
  lemma LruGoesOn(m: L.Machine, t: nat)
    requires L.Inv(m) && t < |m.pcs| && !m.pcs[t].Out? && !m.pcs[t].Linking?
    ensures L.Sized(m)
    ensures var k, pc := L.Step(m, t, L.GoOn), m.pcs[t];
            && (forall y :: y in k.list <==>
                  y in m.list && !(pc.Locked? && pc.stage.Found? && y == pc.stage.x && k.pcs[t].Out?))
            && match k.pcs[t]
               case Out => true
               case Linking(_) => false
               case Locked(job, _) =>
                 if pc.Locked? then job == pc.job else pc.UseWait? && job == L.Refill(pc.e)
               case use => if pc.Locked? then pc.job == L.Refill(use.e) else pc.e == use.e
  {
    hide L.Sum, L.R.Inv, L.Tally, Without, L.StageOk, L.LockedBefore, L.RingGo, L.NextOf, Distinct;
    assert L.ThreadOk(m, t);
    if m.pcs[t].Locked? && (m.pcs[t].stage.Found? || m.pcs[t].stage.Move?) {
      var d := if m.pcs[t].stage.Found? then m.pcs[t].stage.x else m.pcs[t].stage.d;
      if d in m.list {
        forall y ensures y in Without(m.list, d) <==> y in m.list && y != d { L.Members(m, d, y); }
      }
    }
  }

  lemma FoundIsGiven(m: L.Machine, t: nat)
    requires L.Inv(m) && t < |m.pcs| && m.pcs[t].Locked? && m.pcs[t].stage.Found?
    ensures !m.pcs[t].job.Refill? && (m.pcs[t].job.EvictGiven? ==> m.pcs[t].stage.x == m.pcs[t].job.e)
    ensures L.Step(m, t, L.GoOn).pcs[t].Out? ==> m.pcs[t].stage.x in m.list
  {
    assert L.ThreadOk(m, t);
  }

  // ---------- every step keeps the invariant

  lemma StepLife(j: Joint, t: nat, act: E.Act)
    requires Inv(j) && t < |j.life.pcs| && j.lru.pcs[t].Out? && !act.EvictAny?
    requires !j.life.pcs[t].PutLink? && !j.life.pcs[t].KeyWon?
    ensures Inv(j.(life := E.Step(j.life, t, act)))
  {
    hide E.Inv, L.Inv;
    LifeAlone(j.life, t, act);
    assert j.lru.pcs == j.lru.pcs[t := j.lru.pcs[t]];
    Assemble(j, j.(life := E.Step(j.life, t, act)), t);
  }

  /** The thread calls into the replacement policy. */
  lemma StepCall(j: Joint, t: nat, act: L.Act)
    requires Inv(j) && t < |j.life.pcs| && j.lru.pcs[t].Out?
    requires match act
             case Insert(e) => j.life.pcs[t] == E.PutLink(e)
             case Use(e) => j.life.pcs[t] == E.Holding(e)
             case Evict => j.life.pcs[t].Out?
             case EvictEntry(e) => j.life.pcs[t] == E.KeyWon(e)
             case GoOn => true
    ensures Inv(j.(lru := L.Step(j.lru, t, act)))
  {
    hide E.Inv, L.Inv;
    LruAlone(j.lru, t, act);
    assert ErrandOk(j, t) && j.life.pcs == j.life.pcs[t := j.life.pcs[t]];
    Assemble(j, j.(lru := L.Step(j.lru, t, act)), t);
  }

  lemma StepLink(j: Joint, t: nat)
    requires Inv(j) && t < |j.life.pcs| && j.lru.pcs[t].Linking?
    ensures Inv(Link(j, t))
  {
    hide E.Inv, L.Inv;
    if j.lru.owner == -1 {
      assert ErrandOk(j, t);
      LifeAlone(j.life, t, E.GoOn);
      LruAlone(j.lru, t, L.GoOn);
      Assemble(j, Link(j, t), t);
    }
  }

  lemma StepInside(j: Joint, t: nat)
    requires Inv(j) && t < |j.life.pcs| && !j.lru.pcs[t].Out? && !j.lru.pcs[t].Linking?
    ensures Inv(Inside(j, t))
  {
    hide E.Inv, L.Inv, L.Step;
    var pc := j.lru.pcs[t];
    assert ErrandOk(j, t) && j.life.pcs == j.life.pcs[t := j.life.pcs[t]];
    LruAlone(j.lru, t, L.GoOn);
    LruGoesOn(j.lru, t);
    if pc.Locked? && pc.stage.Found? {
      FoundIsGiven(j.lru, t);
      LifeAlone(j.life, t, if j.life.pcs[t].Out? then E.EvictAny(pc.stage.x) else E.GoOn);
    } else {
      LifeAlone(j.life, t, E.Busy);
    }
    Assemble(j, Inside(j, t), t);
  }

  lemma StepOutside(j: Joint, t: nat, act: Act)
    requires Inv(j) && t < |j.life.pcs| && j.lru.pcs[t].Out?
    ensures Inv(Outside(j, t, act))
  {
    hide Inv, E.Step, L.Step;
    InvFacts(j);
    match j.life.pcs[t] {
      case Out => StepBegin(j, t, act);
      case PutLink(e) => StepCall(j, t, L.Insert(e));
      case Holding(e) => if act == Use { StepCall(j, t, L.Use(e)); } else { StepLife(j, t, E.GoOn); }
      case KeyWon(e) => StepCall(j, t, L.EvictEntry(e));
      case _ => StepLife(j, t, E.GoOn);
    }
  }

  lemma StepBegin(j: Joint, t: nat, act: Act)
    requires Inv(j) && t < |j.life.pcs| && j.lru.pcs[t].Out? && j.life.pcs[t].Out?
    ensures Inv(Begin(j, t, act))
  {
    hide Inv, E.Step, L.Step;
    InvFacts(j);
    match act {
      case Put => StepLife(j, t, E.Put);
      case Get(e) => StepLife(j, t, E.Get(e));
      case EvictKey(e) => StepLife(j, t, E.EvictKey(e));
      case EvictAny => StepCall(j, t, L.Evict);
      case _ =>
    }
  }

  lemma StepSized(j: Joint, t: nat, act: Act)
    requires Sized(j) && t < |j.life.pcs|
    ensures Sized(Step(j, t, act)) && |Step(j, t, act).life.pcs| == |j.life.pcs|
  {
    hide E.Step, L.Step;
    forall a ensures |E.Step(j.life, t, a).pcs| == |j.life.pcs| { E.OnePc(j.life, t, a, 0); }
    forall a ensures L.Sized(L.Step(j.lru, t, a)) && |L.Step(j.lru, t, a).pcs| == |j.lru.pcs| { L.OnlyOne(j.lru, t, a); }
  }

  /** Every step of every thread keeps the invariant. */
  lemma StepInv(j: Joint, t: nat, act: Act)
    requires Inv(j) && t < |j.life.pcs|
    ensures Inv(Step(j, t, act)) && |Step(j, t, act).life.pcs| == |j.life.pcs|
  {
    hide Inv, Inside, Outside, Link;
    InvFacts(j);
    StepSized(j, t, act);
    match j.lru.pcs[t] {
      case Out => StepOutside(j, t, act);
      case Linking(_) => StepLink(j, t);
      case _ => StepInside(j, t);
    }
  }

  // ---------- every interleaving

  type Schedule = seq<(nat, Act)>

  predicate Schedulable(j: Joint, sched: Schedule) {
    forall i | 0 <= i < |sched| :: sched[i].0 < |j.life.pcs|
  }

  function Exec(j: Joint, sched: Schedule): Joint
    requires Sized(j) && Schedulable(j, sched)
    decreases |sched|
  {
    if sched == [] then j
    else
      var k := Step(j, sched[0].0, sched[0].1);
      assert Sized(k) && |k.life.pcs| == |j.life.pcs| by { StepSized(j, sched[0].0, sched[0].1); }
      Exec(k, sched[1..])
  }

  lemma StartInv(len: nat, nthreads: nat)
    requires 0 < len
    ensures Inv(Start(len, nthreads))
  {
    hide E.Inv, L.Inv;
    E.StartInv(nthreads);
    L.StartInv(len, nthreads);
  }

  /** Whatever the threads do, in whatever order, the invariant holds. */
  lemma {:induction false} AlwaysInv(j: Joint, sched: Schedule)
    requires Inv(j) && Schedulable(j, sched)
    ensures Sized(j) && Inv(Exec(j, sched))
    decreases |sched|
  {
    hide Inv, Step;
    InvFacts(j);
    if sched != [] {
      StepInv(j, sched[0].0, sched[0].1);
      AlwaysInv(Step(j, sched[0].0, sched[0].1), sched[1..]);
    }
  }

  /** A step of the cache is a step, or none, of each part. */
  lemma StepProjects(j: Joint, t: nat, act: Act) returns (e: E.Schedule, l: L.Schedule)
    requires Inv(j) && t < |j.life.pcs|
    ensures Sized(j)
    ensures |e| <= 1 && E.Schedulable(j.life, e) && E.Exec(j.life, e) == Step(j, t, act).life
    ensures |l| <= 1 && L.Schedulable(j.lru, l) && L.Exec(j.lru, l) == Step(j, t, act).lru
  {
    hide E.Inv, L.Inv, ErrandOk, E.Step, L.Step;
    var k := Step(j, t, act);
    if k.life == j.life {
      e := [];
    } else {
      var a :| E.Step(j.life, t, a) == k.life;
      e := [(t, a)];
      LifeAlone(j.life, t, a);
      assert e[1..] == [];
    }
    if k.lru == j.lru {
      l := [];
    } else {
      var a :| L.Step(j.lru, t, a) == k.lru;
      l := [(t, a)];
      LruAlone(j.lru, t, a);
      assert l[1..] == [];
    }
  }

  lemma LifeRuns(m: E.System, a: E.Schedule, b: E.Schedule)
    requires E.Schedulable(m, a) && E.Schedulable(E.Exec(m, a), b) && |a| <= 1
    ensures E.Schedulable(m, a + b) && E.Exec(m, a + b) == E.Exec(E.Exec(m, a), b)
  {
    hide E.Step;
    if a == [] {
      assert a + b == b;
    } else {
      E.OnePc(m, a[0].0, a[0].1, 0);
      assert (a + b)[1..] == b && a[1..] == [];
    }
  }

  lemma LruRuns(m: L.Machine, a: L.Schedule, b: L.Schedule)
    requires L.Sized(m) && L.Schedulable(m, a) && L.Sized(L.Exec(m, a)) && L.Schedulable(L.Exec(m, a), b) && |a| <= 1
    ensures L.Schedulable(m, a + b) && L.Exec(m, a + b) == L.Exec(L.Exec(m, a), b)
  {
    hide L.Step;
    if a == [] {
      assert a + b == b;
    } else {
      L.OnlyOne(m, a[0].0, a[0].1);
      assert (a + b)[1..] == b && a[1..] == [];
    }
  }

  lemma LruExecNone(m: L.Machine)
    requires L.Sized(m)
    ensures L.Schedulable(m, []) && L.Exec(m, []) == m
  {
  }

  /** A run of the cache is a run of the entries' lives and a run of the LRU, so what holds of their runs holds of it. */
  lemma {:induction false} RunProjects(j: Joint, sched: Schedule) returns (e: E.Schedule, l: L.Schedule)
    requires Inv(j) && Schedulable(j, sched)
    ensures Sized(j) && E.Schedulable(j.life, e) && E.Exec(j.life, e) == Exec(j, sched).life
    ensures L.Schedulable(j.lru, l) && L.Exec(j.lru, l) == Exec(j, sched).lru
    decreases |sched|
  {
    hide Inv, Step, E.Exec, L.Exec;
    InvFacts(j);
    if sched == [] {
      e, l := [], [];
      E.ExecNone(j.life);
      LruExecNone(j.lru);
    } else {
      var t, act := sched[0].0, sched[0].1;
      StepInv(j, t, act);
      StepSized(j, t, act);
      var e0, l0 := StepProjects(j, t, act);
      var e1, l1 := RunProjects(Step(j, t, act), sched[1..]);
      LifeRuns(j.life, e0, e1);
      LruRuns(j.lru, l0, l1);
      e, l := e0 + e1, l0 + l1;
    }
  }

  // ---------- no cell of a freed entry

  /** The cache entries whose memory the next step of a thread reads or writes. */
  function Touched(j: Joint, t: nat): set<int>
    requires t < |j.life.pcs| && t < |j.lru.pcs|
  {
    var own := if j.life.pcs[t].Out? then {} else {j.life.pcs[t].e};
    match j.lru.pcs[t]
    case Locked(_, stage) =>
      (match stage
       case Unlock(_, d) => own + {d}
       case Found(x) => own + {x}
       case TryFirst(x) => if x == 0 then own else own + {x}
       case TrySecond(x) => if x == 0 then own else own + {x}
       case TryWalk(x) => own + {x}
       case _ => own)
    case Out => own
    case pc => own + {pc.e}
  }

  /** An entry that the LRU knows, linked or about to be, has not been freed. */
  lemma PresentLives(j: Joint, x: int)
    requires Inv(j) && L.Present(j.lru, x)
    ensures x in j.life.refcount && 1 <= j.life.refcount[x]
  {
    hide L.Tally, L.Token, L.ThreadOk, L.R.Inv, E.Sum, E.Flagged, E.Placed;
    assert E.EntryOk(j.life, x);
    if x !in j.lru.list {
      var u := j.lru.early[x];
      assert ErrandOk(j, u);
      E.NoUseAfterFree(j.life, u);
    }
  }

  /** What a step touches has not been freed. */
  lemma LiveCells(j: Joint, t: nat, e: int)
    requires Inv(j) && t < |j.life.pcs| && e in Touched(j, t)
    ensures e in j.life.refcount && 1 <= j.life.refcount[e]
  {
    hide E.Inv, L.R.Inv, L.Tally, L.ListOk, L.Token, L.LockedBefore, L.Free;
    assert ErrandOk(j, t) && L.ThreadOk(j.lru, t);
    if !j.life.pcs[t].Out? && e == j.life.pcs[t].e {
      E.NoUseAfterFree(j.life, t);
    } else {
      var s := j.lru.pcs[t].stage;
      if s.Unlock? || s.Found? || s.TryWalk? { L.LinkedOnly(j.lru, t); } else { L.TriedIsListed(j.lru, t); }
      PresentLives(j, e);
    }
  }

  /** What the ring carries stands for an entry that has not been freed. */
  lemma RingLives(j: Joint, x: int)
    requires Inv(j) && j.lru.ring.accepted[x] > j.lru.ring.returned[x]
    ensures L.Present(j.lru, x) && x in j.life.refcount
  {
    hide E.Inv, L.R.Inv, L.Tally, L.ListOk, L.ThreadOk, L.Sum, ErrandOk;
    assert L.Token(j.lru, x);
    PresentLives(j, x);
  }

  /** Once an entry is freed, no thread ever touches it again, and neither the list nor the ring leads to it. */
  lemma FreedIsForgotten(j: Joint, sched: Schedule, e: int)
    requires Inv(j) && Schedulable(j, sched) && e < j.life.nextId && e !in j.life.refcount
    ensures Sized(j)
    ensures var k := Exec(j, sched);
            && Sized(k) && (forall t: nat | t < |k.life.pcs| :: e !in Touched(k, t))
            && !L.Present(k.lru, e) && k.lru.ring.accepted[e] <= k.lru.ring.returned[e]
  {
    hide Inv, Exec, E.Exec, L.Exec, Touched, L.Present;
    InvFacts(j);
    var es, ls := RunProjects(j, sched);
    E.NeverBack(j.life, es, e);
    AlwaysInv(j, sched);
    var k := Exec(j, sched);
    InvFacts(k);
    forall t: nat | t < |k.life.pcs| ensures e !in Touched(k, t) {
      if e in Touched(k, t) { LiveCells(k, t, e); }
    }
    if L.Present(k.lru, e) { PresentLives(k, e); }
    if k.lru.ring.accepted[e] > k.lru.ring.returned[e] { RingLives(k, e); }
  }

  // ---------- an entry that is evicted before it is linked

  /** A step leads a thread to the removal of an entry that is not in the list exactly if it takes an entry, other than by
      going through the list, that a put has not linked yet. That put is under way, and the thread evicts this very key
      or, as its last chance, whatever the ring returns. */
  lemma FaultBy(j: Joint, t: nat, act: Act, u: nat)
    requires Inv(j) && t < |j.life.pcs| && u < |j.life.pcs|
    ensures Sized(j) && |Step(j, t, act).lru.pcs| == |j.lru.pcs|
    ensures var x := L.TakenUnseen(j.lru, t);
            L.Faults(Step(j, t, act).lru, u) <==> L.Faults(j.lru, u) || (u == t && x in j.lru.early)
    ensures var x := L.TakenUnseen(j.lru, t);
            x in j.lru.early ==>
              && j.lru.early[x] < |j.life.pcs| && j.life.pcs[j.lru.early[x]] == E.PutLink(x)
              && (j.life.pcs[t] == E.KeyWon(x) || j.lru.pcs[t] == L.Locked(L.EvictOldest, L.LastRing))
  {
    hide E.Inv, E.Step, L.Step, L.R.Inv, L.Tally, L.Token, L.LockedBefore, L.Free, L.PhaseFits;
    assert ErrandOk(j, t) && L.ThreadOk(j.lru, t);
    StepSized(j, t, act);
    forall a
      ensures L.Faults(L.Step(j.lru, t, a), u) <==> L.Faults(j.lru, u) || (u == t && L.TakenUnseen(j.lru, t) in j.lru.early)
    {
      L.FaultBy(j.lru, t, a, u);
    }
    var x := L.TakenUnseen(j.lru, t);
    if x in j.lru.early { assert ErrandOk(j, j.lru.early[x]); }
  }

  // ---------- when this cannot happen

  /** Whether gets, and evictions by key, may begin on a key whose put has not returned. */
  datatype Rules = Rules(earlyGets: bool, earlyEvictions: bool)

  predicate BeingPut(j: Joint, e: int) {
    exists u | 0 <= u < |j.life.pcs| :: j.life.pcs[u] == E.PutLink(e)
  }

  predicate Allowed(rules: Rules, j: Joint, t: nat, act: Act)
    requires t < |j.life.pcs| && t < |j.lru.pcs|
  {
    j.life.pcs[t].Out? && j.lru.pcs[t].Out? ==>
      && (act.Get? && !rules.earlyGets ==> !BeingPut(j, act.e))
      && (act.EvictKey? && !rules.earlyEvictions ==> !BeingPut(j, act.e))
  }

  /** Every call of the run begins as allowed. */
  predicate Obeys(rules: Rules, j: Joint, sched: Schedule)
    requires Sized(j) && Schedulable(j, sched)
    decreases |sched|
  {
    sched != [] ==>
      var t, act := sched[0].0, sched[0].1;
      assert Sized(Step(j, t, act)) && |Step(j, t, act).life.pcs| == |j.life.pcs| by { StepSized(j, t, act); }
      Allowed(rules, j, t, act) && Obeys(rules, Step(j, t, act), sched[1..])
  }

  predicate FaultsAt(j: Joint, t: nat, job: L.Job) {
    t < |j.lru.pcs| && L.Faults(j.lru, t) && j.lru.pcs[t].job == job
  }

  predicate NoFault(j: Joint) {
    forall t: nat | t < |j.lru.pcs| :: !L.Faults(j.lru, t)
  }

  /** No thread but its put has anything to do with an entry being put, whose cell is then unlocked once it is filled. */
  ghost predicate Private(m: E.System) {
    forall u, t {:trigger m.pcs[u], m.pcs[t]} |
      0 <= u < |m.pcs| && 0 <= t < |m.pcs| && t != u && m.pcs[u].PutLink? && !m.pcs[t].Out? ::
        m.pcs[t].e != m.pcs[u].e
  }

  ghost predicate Quiet(j: Joint) {
    Private(j.life) && NoFault(j) && forall x | x in j.lru.early :: x in j.lru.unlocked
  }

  lemma Numbered(m: E.System, t: nat)
    requires E.Inv(m) && t < |m.pcs| && !m.pcs[t].Out?
    ensures m.pcs[t].e < m.nextId
  {
    E.NoUseAfterFree(m, t);
    assert E.EntryOk(m, m.pcs[t].e);
  }

  lemma PutIsUnlisted(m: E.System, t: nat)
    requires E.Inv(m) && t < |m.pcs| && m.pcs[t].PutLink?
    ensures m.pcs[t].e !in m.listed
  {
    hide E.Sum;
    assert E.EntryOk(m, m.pcs[t].e);
    E.SumAtLeast(E.Place, m.pcs[t].e, m.pcs, t);
  }

  lemma StaysPrivate(m: E.System, t: nat, act: E.Act)
    requires E.Inv(m) && t < |m.pcs| && Private(m)
    requires m.pcs[t].Out? && (act.Get? || act.EvictKey?) ==> forall u | 0 <= u < |m.pcs| :: m.pcs[u] != E.PutLink(act.e)
    ensures Private(E.Step(m, t, act))
  {
    hide E.Inv;
    LifeAlone(m, t, act);
    forall u: nat | u < |m.pcs| && !m.pcs[u].Out? ensures m.pcs[u].e < m.nextId { Numbered(m, u); }
    forall u: nat | u < |m.pcs| && m.pcs[u].PutLink? ensures m.pcs[u].e !in m.listed { PutIsUnlisted(m, u); }
  }

  /** The life of a step in a run without early calls. */
  lemma QuietLife(j: Joint, t: nat, act: Act)
    requires Inv(j) && Quiet(j) && t < |j.life.pcs| && t < |j.lru.pcs| && Allowed(Rules(false, false), j, t, act)
    ensures Sized(j) && Private(Step(j, t, act).life)
  {
    hide Inv, E.Step, L.Step, Private, NoFault;
    InvFacts(j);
    forall a: E.Act | !(j.life.pcs[t].Out? && (a.Get? || a.EvictKey?)) ensures Private(E.Step(j.life, t, a)) {
      StaysPrivate(j.life, t, a);
    }
    if act.Get? && j.life.pcs[t].Out? && j.lru.pcs[t].Out? { StaysPrivate(j.life, t, E.Get(act.e)); }
    if act.EvictKey? && j.life.pcs[t].Out? && j.lru.pcs[t].Out? { StaysPrivate(j.life, t, E.EvictKey(act.e)); }
  }

  /** In such a run nobody uses or takes an entry that is not linked yet. */
  lemma QuietTakes(j: Joint, t: nat, x: int)
    requires Inv(j) && Quiet(j) && t < |j.life.pcs| && x in j.lru.early
    ensures Sized(j) && j.lru.pcs[t] != L.UseRead(x) && L.TakenUnseen(j.lru, t) != x
  {
    hide E.Inv, L.R.Inv, L.Tally, L.Token, L.LockedBefore, L.Free;
    var u := j.lru.early[x];
    assert ErrandOk(j, t) && ErrandOk(j, u) && L.ThreadOk(j.lru, t);
    if j.lru.ring.threads[t].DeqTaken? { L.DequeuedIsLocked(j.lru, t); }
  }

  lemma QuietStep(j: Joint, t: nat, act: Act)
    requires Inv(j) && Quiet(j) && t < |j.life.pcs| && t < |j.lru.pcs| && Allowed(Rules(false, false), j, t, act)
    ensures Sized(j) && Quiet(Step(j, t, act))
  {
    hide Inv, E.Step, L.Step, Private, L.Faults, L.TakenUnseen, Allowed;
    InvFacts(j);
    QuietLife(j, t, act);
    var k := Step(j, t, act);
    forall x | x in j.lru.early ensures j.lru.pcs[t] != L.UseRead(x) && L.TakenUnseen(j.lru, t) != x {
      QuietTakes(j, t, x);
    }
    forall u: nat | u < |k.lru.pcs| ensures !L.Faults(k.lru, u) {
      StepSized(j, t, act);
      FaultBy(j, t, act, u);
    }
    forall x, a ensures x in L.Step(j.lru, t, a).early ==> x in L.Step(j.lru, t, a).unlocked {
      L.EarlyStays(j.lru, t, a, x);
    }
  }

  /** If no get and no eviction begins on a key whose put has not returned, no entry is removed that is not linked. */
  lemma {:induction false} PatientNeverFaults(j: Joint, sched: Schedule)
    requires Inv(j) && Quiet(j) && Schedulable(j, sched)
    ensures Sized(j) && (Obeys(Rules(false, false), j, sched) ==> NoFault(Exec(j, sched)))
    decreases |sched|
  {
    hide Inv, Step, Private, Allowed, L.Faults;
    InvFacts(j);
    if sched != [] {
      var t, act := sched[0].0, sched[0].1;
      if Allowed(Rules(false, false), j, t, act) {
        StepInv(j, t, act);
        QuietStep(j, t, act);
        PatientNeverFaults(Step(j, t, act), sched[1..]);
      }
    }
  }

  // ---------- and when it can

  /** Put one step in front of a schedule. */
  lemma Before(rules: Rules, j: Joint, t: nat, act: Act, k: Joint, rest: Schedule, end: Joint) returns (sched: Schedule)
    requires Sized(j) && t < |j.life.pcs| && Step(j, t, act) == k && Sized(k) && Schedulable(k, rest)
    requires Exec(k, rest) == end && Obeys(rules, k, rest) && Allowed(rules, j, t, act)
    ensures sched == [(t, act)] + rest && Schedulable(j, sched) && Exec(j, sched) == end && Obeys(rules, j, sched)
  {
    hide Step, Allowed;
    StepSized(j, t, act);
    sched := [(t, act)] + rest;
    assert sched[1..] == rest;
  }

  lemma ExecNone(rules: Rules, j: Joint)
    requires Sized(j)
    ensures Schedulable(j, []) && Exec(j, []) == j && Obeys(rules, j, [])
  {
  }

  /** An evictor of a given entry that finds its cell filled takes it, linked or not. */
  lemma EvictorTakes(rules: Rules, j: Joint, t: nat, e: int) returns (sched: Schedule)
    requires Sized(j) && t < |j.life.pcs| && j.life.pcs[t] == E.KeyWon(e) && j.lru.pcs[t].Out?
    requires j.lru.owner == -1 && j.lru.list != [] && e in j.lru.unlocked && e !in j.lru.list
    ensures Schedulable(j, sched) && Obeys(rules, j, sched) && FaultsAt(Exec(j, sched), t, L.EvictGiven(e))
  {
    hide Exec, Schedulable, Obeys, L.RingGo, L.StepDequeue, L.NextOf, Without;
    var locked := j.(lru := L.Step(j.lru, t, L.EvictEntry(e)));
    var tries := j.(lru := L.Step(locked.lru, t, L.GoOn));
    var end := j.(lru := L.Step(tries.lru, t, L.GoOn));
    assert L.Faults(end.lru, t);
    ExecNone(rules, end);
    sched := Before(rules, tries, t, GoOn, end, [], end);
    sched := Before(rules, locked, t, GoOn, tries, sched, end);
    sched := Before(rules, j, t, GoOn, locked, sched, end);
  }

  /** The put fills the cell if it has not done so. */
  lemma FillsIn(rules: Rules, j: Joint, t: nat, u: nat, e: int) returns (sched: Schedule)
    requires Sized(j) && t < |j.life.pcs| && j.life.pcs[t] == E.KeyWon(e) && j.lru.pcs[t].Out?
    requires u < |j.life.pcs| && j.life.pcs[u] == E.PutLink(e) && 0 < e && j.lru.owner == -1 && j.lru.list != []
    requires e !in j.lru.list
    requires if j.lru.pcs[u].Out? then e !in j.lru.early else e in j.lru.unlocked
    ensures Schedulable(j, sched) && Obeys(rules, j, sched) && FaultsAt(Exec(j, sched), t, L.EvictGiven(e))
  {
    hide Exec, Schedulable, Obeys, FaultsAt;
    if j.lru.pcs[u].Out? {
      var k := j.(lru := L.Step(j.lru, u, L.Insert(e)));
      sched := EvictorTakes(rules, k, t, e);
      sched := Before(rules, j, u, GoOn, k, sched, Exec(k, sched));
    } else {
      sched := EvictorTakes(rules, j, t, e);
    }
  }

  /** An eviction by key that begins before the put of its key has returned, while the list is free and not empty: it may
      find the cell filled, lock it, and then remove an entry that is not linked. */
  lemma EvictTooEarly(rules: Rules, j: Joint, t: nat, u: nat, e: int) returns (sched: Schedule)
    requires Inv(j) && t < |j.life.pcs| && u < |j.life.pcs| && j.lru.owner == -1 && j.lru.list != []
    requires j.life.pcs[t].Out? && j.lru.pcs[t].Out? && j.life.pcs[u] == E.PutLink(e) && e !in j.life.evicting
    requires rules.earlyEvictions && (e in j.lru.early ==> e in j.lru.unlocked)
    ensures Sized(j) && Schedulable(j, sched) && sched != [] && sched[0] == (t, EvictKey(e))
    ensures Obeys(rules, j, sched) && FaultsAt(Exec(j, sched), t, L.EvictGiven(e))
  {
    hide E.Inv, L.Inv, Exec, Schedulable, Obeys, BeingPut, FaultsAt;
    PutFacts(j, u);
    var got := j.(life := E.Step(j.life, t, E.EvictKey(e)));
    var won := j.(life := E.Step(got.life, t, E.GoOn));
    sched := FillsIn(rules, won, t, u, e);
    sched := Before(rules, got, t, GoOn, won, sched, Exec(won, sched));
    sched := Before(rules, j, t, EvictKey(e), got, sched, Exec(got, sched));
  }

  lemma PutFacts(j: Joint, u: nat)
    requires Inv(j) && u < |j.life.pcs| && j.life.pcs[u].PutLink?
    ensures var e := j.life.pcs[u].e;
            && 0 < e && e in j.life.indexed && e !in j.lru.list
            && if j.lru.pcs[u].Out? then e !in j.lru.early else e in j.lru.early
  {
    hide E.Inv, L.R.Inv, L.Tally, L.Token;
    assert ErrandOk(j, u) && L.ThreadOk(j.lru, u);
    E.NoUseAfterFree(j.life, u);
    PutIsUnlisted(j.life, u);
    if j.lru.pcs[u].Out? { Unfilled(j, u); }
  }

  /** A put whose thread is not in the replacement policy's code has not filled the cell. */
  lemma Unfilled(j: Joint, u: nat)
    requires Inv(j) && u < |j.life.pcs| && j.life.pcs[u].PutLink? && j.lru.pcs[u].Out?
    ensures j.life.pcs[u].e !in j.lru.early
  {
    hide E.Inv, L.R.Inv, L.Tally, L.Token, L.ThreadOk;
    var e := j.life.pcs[u].e;
    if e in j.lru.early {
      assert ErrandOk(j, j.lru.early[e]);
      OnePut(j.life, u, j.lru.early[e]);
    }
  }

  lemma OnePut(m: E.System, u: nat, v: nat)
    requires E.Inv(m) && u < |m.pcs| && v < |m.pcs| && m.pcs[u].PutLink? && m.pcs[v] == m.pcs[u]
    ensures u == v
  {
    hide E.Sum;
    var e := m.pcs[u].e;
    assert E.EntryOk(m, e);
    E.SumUpdate(E.Place, e, m.pcs, u, E.Out);
    E.SumAtLeast(E.Place, e, m.pcs[u := E.Out], v);
  }

  // ---------- a run in which the ring returns an entry that is not linked

  /** A ring whose first slot holds `x` and whose others are NULL. */
  function Slot(x: int, len: nat): seq<int>
    requires 0 < len
  {
    [x] + seq(len - 1, _ => 0)
  }

  lemma SlotFacts(len: nat)
    requires 0 < len
    ensures forall x :: |Slot(x, len)| == len && Slot(x, len)[0] == x
    ensures Slot(0, len)[0 := 2] == Slot(2, len) && Slot(2, len)[0 := 0] == Slot(0, len)
    ensures seq(len, _ => 0) == Slot(0, len)
    ensures 0 % len == 0
  {
  }

  /** Entry 1 is listed and its put is over; entry 2 is indexed and being put. */
  const TWO := E.System(map[1 := 2, 2 := 1], {1, 2}, {1}, {}, {}, [E.PutLink(2), E.Out, E.Out, E.Out], 3)

  /** Thread 1 uses entry 1, thread 2 uses entry 2. */
  const USED := E.System(map[1 := 3, 2 := 2], {1, 2}, {1}, {}, {}, [E.PutLink(2), E.Holding(1), E.Holding(2), E.Out], 3)

  const NEW: seq<L.R.Phase> := [L.R.Idle, L.R.Idle, L.R.Idle, L.R.Idle]

  function Empty(len: nat): L.R.Ring
    requires 0 < len
  {
    L.R.Ring(len, 0, 0, 0, Slot(0, len), NEW, multiset{}, multiset{})
  }

  function Posted(len: nat): L.R.Ring
    requires 0 < len
  {
    L.R.Ring(len - 1, 1, 0, 1, Slot(2, len), NEW, multiset{2}, multiset{})
  }

  /** Thread 0 has filled the cell of entry 2, thread 1 holds entry 1, thread 3 evicts. */
  function Scene(ring: L.R.Ring, two: L.Pc, evictor: L.Stage): Joint {
    Joint(USED, L.Machine(ring, [1], map[2 := 0], {}, 3,
                          [L.Linking(2), L.UseHeld(1), two, L.Locked(L.EvictOldest, evictor)]))
  }

  /** The last chance: thread 3 dequeues entry 2. */
  lemma TakesLastChance(rules: Rules, len: nat) returns (sched: Schedule)
    requires 0 < len
    ensures var j := Scene(Posted(len), L.Out, L.LastChance);
            Sized(j) && Schedulable(j, sched) && Obeys(rules, j, sched) && FaultsAt(Exec(j, sched), 3, L.EvictOldest)
  {
    hide Exec, Schedulable, Obeys, Slot, E.Step, BeingPut;
    SlotFacts(len);
    var k0, r0 := Scene(Posted(len), L.Out, L.LastChance), Posted(len);
    var r1 := r0.(nused := 0, threads := NEW[3 := L.R.DeqPermit]);
    var r2 := r1.(readPos := 1, threads := NEW[3 := L.R.DeqTicket(0)]);
    var r3 := r2.(threads := NEW[3 := L.R.DeqLoaded(0, 2)]);
    var r4 := r3.(slots := Slot(0, len), threads := NEW[3 := L.R.DeqTaken(2)]);
    var r5 := r4.(nfree := len, threads := NEW, returned := multiset{2});
    var k1, k2 := Scene(r1, L.Out, L.LastRing), Scene(r2, L.Out, L.LastRing);
    var k3, k4 := Scene(r3, L.Out, L.LastRing), Scene(r4, L.Out, L.LastRing);
    var end := Scene(r5, L.Out, L.Found(2));
    assert L.Faults(end.lru, 3);
    ExecNone(rules, end);
    sched := Before(rules, k4, 3, GoOn, end, [], end);
    sched := Before(rules, k3, 3, GoOn, k4, sched, end);
    sched := Before(rules, k2, 3, GoOn, k3, sched, end);
    sched := Before(rules, k1, 3, GoOn, k2, sched, end);
    sched := Before(rules, k0, 3, GoOn, k1, sched, end);
  }

  /** Thread 2 enqueues entry 2. */
  lemma EnqueuesUnlinked(rules: Rules, len: nat) returns (sched: Schedule)
    requires 0 < len
    ensures var j := Scene(Empty(len), L.UseHeld(2), L.LastChance);
            Sized(j) && Schedulable(j, sched) && Obeys(rules, j, sched) && FaultsAt(Exec(j, sched), 3, L.EvictOldest)
  {
    hide Exec, Schedulable, Obeys, Slot, E.Step, BeingPut, FaultsAt;
    SlotFacts(len);
    var r0 := Empty(len);
    var r1 := r0.(nfree := len - 1, threads := NEW[2 := L.R.EnqPermit(2)], accepted := multiset{2});
    var r2 := r1.(writePos := 1, threads := NEW[2 := L.R.EnqTicket(2, 0)]);
    var r3 := r2.(slots := Slot(2, len), threads := NEW[2 := L.R.EnqStored]);
    var i0, i1 := Scene(r0, L.UseHeld(2), L.LastChance), Scene(r1, L.UseRing(2), L.LastChance);
    var i2, i3 := Scene(r2, L.UseRing(2), L.LastChance), Scene(r3, L.UseRing(2), L.LastChance);
    var i4 := Scene(Posted(len), L.Out, L.LastChance);
    sched := TakesLastChance(rules, len);
    var end := Exec(i4, sched);
    sched := Before(rules, i3, 2, GoOn, i4, sched, end);
    sched := Before(rules, i2, 2, GoOn, i3, sched, end);
    sched := Before(rules, i1, 2, GoOn, i2, sched, end);
    sched := Before(rules, i0, 2, GoOn, i1, sched, end);
  }

  /** Thread 3 finds the only listed entry locked and nothing in the ring. */
  lemma SearchesInVain(rules: Rules, len: nat) returns (sched: Schedule)
    requires 0 < len
    ensures var j := Scene(Empty(len), L.UseHeld(2), L.First);
            Sized(j) && Schedulable(j, sched) && Obeys(rules, j, sched) && FaultsAt(Exec(j, sched), 3, L.EvictOldest)
  {
    hide Exec, Schedulable, Obeys, Slot, E.Step, BeingPut, FaultsAt, L.StepDequeue;
    SlotFacts(len);
    var r, two := Empty(len), L.UseHeld(2);
    var h0, h1, h2 := Scene(r, two, L.First), Scene(r, two, L.TryFirst(1)), Scene(r, two, L.Flush(0));
    var h3, h4, h5 := Scene(r, two, L.Second), Scene(r, two, L.TrySecond(1)), Scene(r, two, L.Walk(1));
    var h6 := Scene(r, two, L.LastChance);
    sched := EnqueuesUnlinked(rules, len);
    var end := Exec(h6, sched);
    sched := Before(rules, h5, 3, GoOn, h6, sched, end);
    sched := Before(rules, h4, 3, GoOn, h5, sched, end);
    sched := Before(rules, h3, 3, GoOn, h4, sched, end);
    sched := Before(rules, h2, 3, GoOn, h3, sched, end);
    sched := Before(rules, h1, 3, GoOn, h2, sched, end);
    sched := Before(rules, h0, 3, GoOn, h1, sched, end);
  }

  /** Entry 1 is listed; entry 2 is being put and its cell is still NULL. */
  function Halfway(len: nat): Joint
    requires 0 < len
  {
    Joint(TWO, L.Machine(Empty(len), [1], map[], {1}, -1, [L.Out, L.Out, L.Out, L.Out]))
  }

  /** Threads 1 and 2 get and lock entries 1 and 2, the second one too early, and thread 3 begins to evict. */
  lemma GetsEarly(rules: Rules, len: nat) returns (sched: Schedule)
    requires 0 < len && rules.earlyGets
    ensures var j := Halfway(len);
            Sized(j) && Schedulable(j, sched) && Obeys(rules, j, sched) && FaultsAt(Exec(j, sched), 3, L.EvictOldest)
  {
    hide Exec, Schedulable, Obeys, Slot, FaultsAt, L.StepLocked, L.RingGo, BeingPut;
    SlotFacts(len);
    var g0 := Halfway(len);
    var g1 := g0.(life := TWO.(refcount := map[1 := 3, 2 := 1], pcs := TWO.pcs[1 := E.Holding(1)]));
    var g2 := g1.(lru := g0.lru.(pcs := [L.Out, L.UseRead(1), L.Out, L.Out]));
    var g3 := g1.(lru := g0.lru.(unlocked := {}, pcs := [L.Out, L.UseHeld(1), L.Out, L.Out]));
    var g4 := g1.(lru := g0.lru.(early := map[2 := 0], unlocked := {2}, pcs := [L.Linking(2), L.UseHeld(1), L.Out, L.Out]));
    var g5 := g4.(life := USED);
    var g6 := g5.(lru := g4.lru.(pcs := [L.Linking(2), L.UseHeld(1), L.UseRead(2), L.Out]));
    var g7 := g5.(lru := g4.lru.(unlocked := {}, pcs := [L.Linking(2), L.UseHeld(1), L.UseHeld(2), L.Out]));
    var g8 := Scene(Empty(len), L.UseHeld(2), L.First);
    sched := SearchesInVain(rules, len);
    var end := Exec(g8, sched);
    sched := Before(rules, g7, 3, EvictAny, g8, sched, end);
    sched := Before(rules, g6, 2, GoOn, g7, sched, end);
    sched := Before(rules, g5, 2, Use, g6, sched, end);
    sched := Before(rules, g4, 2, Get(2), g5, sched, end);
    sched := Before(rules, g3, 0, GoOn, g4, sched, end);
    sched := Before(rules, g2, 1, GoOn, g3, sched, end);
    sched := Before(rules, g1, 1, Use, g2, sched, end);
    sched := Before(rules, g0, 1, Get(1), g1, sched, end);
  }

  // ---------- exactly which calls are to blame

  const ONE := E.System(map[1 := 2], {1}, {1}, {}, {}, [E.Out, E.Out, E.Out, E.Out], 2)

  /** Thread 0 puts entry 1 and begins to put entry 2. */
  lemma PutsTwice(rules: Rules, len: nat, rest: Schedule) returns (sched: Schedule)
    requires 0 < len && Sized(Halfway(len)) && Schedulable(Halfway(len), rest) && Obeys(rules, Halfway(len), rest)
    ensures Sized(Start(len, 4)) && Schedulable(Start(len, 4), sched) && Obeys(rules, Start(len, 4), sched)
    ensures Exec(Start(len, 4), sched) == Exec(Halfway(len), rest) && Inv(Halfway(len))
  {
    hide Exec, Schedulable, Obeys, Slot, L.StepLocked, L.RingGo, Inv;
    SlotFacts(len);
    var out := [L.Out, L.Out, L.Out, L.Out];
    var s0 := Joint(E.System(map[], {}, {}, {}, {}, ONE.pcs, 1), L.Machine(Empty(len), [], map[], {}, -1, out));
    var s1 := s0.(life := E.System(map[1 := 1], {1}, {}, {}, {}, [E.PutLink(1), E.Out, E.Out, E.Out], 2));
    var s2 := s1.(lru := s0.lru.(early := map[1 := 0], unlocked := {1}, pcs := [L.Linking(1), L.Out, L.Out, L.Out]));
    var s3 := Joint(ONE, L.Machine(Empty(len), [1], map[], {1}, -1, out));
    var s4, end := Halfway(len), Exec(Halfway(len), rest);
    sched := Before(rules, s3, 0, Put, s4, rest, end);
    sched := Before(rules, s2, 0, GoOn, s3, sched, end);
    sched := Before(rules, s1, 0, GoOn, s2, sched, end);
    sched := Before(rules, s0, 0, Put, s1, sched, end);
    assert Start(len, 4) == s0;
    StartInv(len, 4);
    StepInv(s0, 0, Put);
    StepInv(s1, 0, GoOn);
    StepInv(s2, 0, GoOn);
    StepInv(s3, 0, Put);
  }

  /** A run from the start, of four threads, that removes an entry before it is linked: by an eviction of its key if such
      ones may begin too early, else by way of the ring after a get that began too early. */
  lemma FaultFromStart(rules: Rules, len: nat) returns (sched: Schedule)
    requires 0 < len && (rules.earlyGets || rules.earlyEvictions)
    ensures Sized(Start(len, 4)) && Schedulable(Start(len, 4), sched) && Obeys(rules, Start(len, 4), sched)
    ensures var k := Exec(Start(len, 4), sched);
            if rules.earlyEvictions then FaultsAt(k, 1, L.EvictGiven(2)) else FaultsAt(k, 3, L.EvictOldest)
  {
    hide Exec, Schedulable, Obeys, FaultsAt, Inv, Slot;
    SlotFacts(len);
    ExecNone(rules, Halfway(len));
    sched := PutsTwice(rules, len, []);
    if rules.earlyEvictions {
      sched := EvictTooEarly(rules, Halfway(len), 1, 0, 2);
    } else {
      sched := GetsEarly(rules, len);
    }
    sched := PutsTwice(rules, len, sched);
  }

  /** In no run of any number of threads that obeys the rules is an entry removed that is not linked. */
  ghost predicate Safe(rules: Rules, len: nat)
    requires 0 < len
  {
    forall n: nat, sched: Schedule {:trigger Schedulable(Start(len, n), sched)} |
      Sized(Start(len, n)) && Schedulable(Start(len, n), sched) && Obeys(rules, Start(len, n), sched) ::
        NoFault(Exec(Start(len, n), sched))
  }

  /** Exactly the rules that forbid both: no get and no eviction by key begins before the put of its key has returned. */
  lemma PatienceDecides(rules: Rules, len: nat)
    requires 0 < len
    ensures Safe(rules, len) <==> !rules.earlyGets && !rules.earlyEvictions
  {
    hide Exec, Schedulable, Obeys, Inv, L.Faults;
    if rules.earlyGets || rules.earlyEvictions {
      var sched := FaultFromStart(rules, len);
      var k := Exec(Start(len, 4), sched);
      assert !NoFault(k);
    } else {
      forall n: nat, sched: Schedule
        | Sized(Start(len, n)) && Schedulable(Start(len, n), sched) && Obeys(rules, Start(len, n), sched)
        ensures NoFault(Exec(Start(len, n), sched))
      {
        StartInv(len, n);
        StartQuiet(len, n);
        PatientNeverFaults(Start(len, n), sched);
      }
    }
  }

  lemma StartQuiet(len: nat, n: nat)
    requires 0 < len
    ensures Quiet(Start(len, n))
  {
  }

  // ---------- a stranded entry

  const POPPED := E.FLAGGED.(listed := {}, pcs := [E.KeyWon(1), E.Popped(1)])
  const LOST := POPPED.(orphans := {1}, pcs := [E.KeyWon(1), E.Out])
  const ANY := Rules(true, true)

  /** One entry, and the LRU beside it: the list, the entries whose cells are filled, the lock's owner and the threads. */
  function Beside(life: E.System, len: nat, list: seq<int>, unlocked: set<int>, owner: int, pcs: seq<L.Pc>): Joint {
    Joint(life, L.Machine(L.R.Start(len, 2), list, map[], unlocked, owner, pcs))
  }

  /** Thread 0 finds the list empty and gives up. */
  lemma GivesUp(len: nat) returns (sched: Schedule)
    requires 0 < len
    ensures var j := Beside(LOST, len, [], {}, -1, [L.Out, L.Out]);
            var end := Beside(E.STRANDED, len, [], {}, -1, [L.Out, L.Out]);
            Sized(j) && Schedulable(j, sched) && Obeys(ANY, j, sched) && Exec(j, sched) == end
  {
    hide Exec, Schedulable, Obeys, L.RingGo, L.StepDequeue, Without, L.NextOf;
    var end := Beside(E.STRANDED, len, [], {}, -1, [L.Out, L.Out]);
    var d0 := Beside(LOST, len, [], {}, -1, [L.Out, L.Out]);
    var d1 := Beside(LOST, len, [], {}, 0, [L.Locked(L.EvictGiven(1), L.First), L.Out]);
    var d2 := d0.(life := LOST.(pcs := [E.KeyFailed(1), E.Out]));
    var d3 := d0.(life := LOST.(refcount := map[1 := 2], pcs := [E.KeyReset(1), E.Out]));
    ExecNone(ANY, end);
    sched := Before(ANY, d3, 0, GoOn, end, [], end);
    sched := Before(ANY, d2, 0, GoOn, d3, sched, end);
    sched := Before(ANY, d1, 0, GoOn, d2, sched, end);
    sched := Before(ANY, d0, 0, GoOn, d1, sched, end);
  }

  /** Thread 1 is handed the entry that thread 0 has flagged, and drops it. */
  lemma HandsOut(len: nat) returns (sched: Schedule)
    requires 0 < len
    ensures var j := Beside(E.FLAGGED, len, [1], {1}, -1, [L.Out, L.Out]);
            var end := Beside(E.STRANDED, len, [], {}, -1, [L.Out, L.Out]);
            Sized(j) && Schedulable(j, sched) && Obeys(ANY, j, sched) && Exec(j, sched) == end
  {
    hide Exec, Schedulable, Obeys;
    var end := Beside(E.STRANDED, len, [], {}, -1, [L.Out, L.Out]);
    var c0 := Beside(E.FLAGGED, len, [1], {1}, -1, [L.Out, L.Out]);
    var c1 := Beside(E.FLAGGED, len, [1], {1}, 1, [L.Out, L.Locked(L.EvictOldest, L.First)]);
    var c2 := Beside(E.FLAGGED, len, [1], {1}, 1, [L.Out, L.Locked(L.EvictOldest, L.TryFirst(1))]);
    var c3 := Beside(E.FLAGGED, len, [1], {}, 1, [L.Out, L.Locked(L.EvictOldest, L.Found(1))]);
    var c4 := Beside(POPPED, len, [], {}, -1, [L.Out, L.Out]);
    var c5 := Beside(LOST, len, [], {}, -1, [L.Out, L.Out]);
    sched := GivesUp(len);
    sched := Before(ANY, c4, 1, GoOn, c5, sched, end);
    sched := Before(ANY, c3, 1, GoOn, c4, sched, end);
    sched := Before(ANY, c2, 1, GoOn, c3, sched, end);
    sched := Before(ANY, c1, 1, GoOn, c2, sched, end);
    sched := Before(ANY, c0, 1, EvictAny, c1, sched, end);
  }

  /** An entry can be stranded by the LRU itself: it hands out the very entry that another thread is evicting by key. */
  lemma LruStrands(len: nat) returns (sched: Schedule)
    requires 0 < len
    ensures Sized(Start(len, 2)) && Schedulable(Start(len, 2), sched) && Exec(Start(len, 2), sched).life == E.STRANDED
  {
    hide Exec, Schedulable, Obeys, L.StepLocked;
    var end := Beside(E.STRANDED, len, [], {}, -1, [L.Out, L.Out]);
    var s0 := Beside(E.System(map[], {}, {}, {}, {}, [E.Out, E.Out], 1), len, [], {}, -1, [L.Out, L.Out]);
    var s1 := s0.(life := E.System(map[1 := 1], {1}, {}, {}, {}, [E.PutLink(1), E.Out], 2));
    var s2 := s1.(lru := s0.lru.(early := map[1 := 0], unlocked := {1}, pcs := [L.Linking(1), L.Out]));
    var s3 := Beside(E.System(map[1 := 2], {1}, {1}, {}, {}, [E.Out, E.Out], 2), len, [1], {1}, -1, [L.Out, L.Out]);
    var s4 := s3.(life := E.System(map[1 := 3], {1}, {1}, {}, {}, [E.KeyGot(1), E.Out], 2));
    var s5 := Beside(E.FLAGGED, len, [1], {1}, -1, [L.Out, L.Out]);
    sched := HandsOut(len);
    sched := Before(ANY, s4, 0, GoOn, s5, sched, end);
    sched := Before(ANY, s3, 0, EvictKey(1), s4, sched, end);
    sched := Before(ANY, s2, 0, GoOn, s3, sched, end);
    sched := Before(ANY, s1, 0, GoOn, s2, sched, end);
    sched := Before(ANY, s0, 0, Put, s1, sched, end);
    assert Start(len, 2) == s0;
  }
}
