/** The life of a cache entry under concurrency: references, the `evicting` flag, and when an entry is freed. */
module EntryLifetime {
  import opened Sequences

  /** Where a thread stands in a put, a get, or an eviction. */
  datatype Pc =
    | Out
    | PutLink(e: int)
    | Holding(e: int)
    | Popped(e: int)
    | Won(e: int)
    | KeyGot(e: int)
    | KeyWon(e: int)
    | KeyFailed(e: int)
    | KeyReset(e: int)
    | KeyPopped(e: int)
    | Removing(e: int)
    | Dropping(e: int)

  /** The reference counts of the entries not yet freed, the sets of indexed, listed and flagged entries, and the entries
      whose replacement-policy reference was dropped on the floor by an evictor that lost the flag. */
  datatype System = System(refcount: map<int, int>, indexed: set<int>, listed: set<int>, evicting: set<int>,
                           orphans: set<int>, pcs: seq<Pc>, nextId: int)

  /** `EvictAny` names the entry the replacement policy will hand out; `Busy` makes it refuse a given entry. */
  datatype Act = Put | Get(e: int) | EvictAny(e: int) | EvictKey(e: int) | GoOn | Busy

  function Start(nthreads: nat): System {
    System(map[], {}, {}, {}, {}, seq(nthreads, _ => Out), 1)
  }

  function Go(m: System, t: nat, pc: Pc): System
    requires t < |m.pcs|
  {
    m.(pcs := m.pcs[t := pc])
  }

  function Refs(m: System, e: int): int {
    if e in m.refcount then m.refcount[e] else 0
  }

  function Acquire(m: System, e: int): System {
    m.(refcount := m.refcount[e := Refs(m, e) + 1])
  }

  /** The last reference frees the entry and its extents. */
  function Release(m: System, e: int): System {
    if Refs(m, e) != 1 then m.(refcount := m.refcount[e := Refs(m, e) - 1]) else m.(refcount := m.refcount - {e})
  }

  function StepOut(m: System, t: nat, act: Act): System
    requires t < |m.pcs|
  {
    match act
    case Put =>
      Go(m, t, PutLink(m.nextId)).(refcount := m.refcount[m.nextId := 1],
                                   indexed := m.indexed + {m.nextId}, nextId := m.nextId + 1)
    case Get(e) => if e in m.indexed then Go(Acquire(m, e), t, Holding(e)) else m
    case EvictAny(e) => if e in m.listed then Go(m, t, Popped(e)).(listed := m.listed - {e}) else m
    case EvictKey(e) => if e in m.indexed then Go(Acquire(m, e), t, KeyGot(e)) else m
    case _ => m
  }

  /** One atomic step of thread `t`. */
  function Step(m: System, t: nat, act: Act): System
    requires t < |m.pcs|
  {
    match m.pcs[t]
    case Out => StepOut(m, t, act)
    case PutLink(e) => Go(Acquire(m, e), t, Out).(listed := m.listed + {e})
    case Holding(e) => Go(Release(m, e), t, Out)
    case Popped(e) =>
      if e !in m.evicting then Go(m, t, Won(e)).(evicting := m.evicting + {e})
      else Go(m, t, Out).(orphans := m.orphans + {e})
    case Won(e) => Go(Release(m, e), t, Removing(e))
    case KeyGot(e) =>
      if e !in m.evicting then Go(m, t, KeyWon(e)).(evicting := m.evicting + {e}) else Go(m, t, Dropping(e))
    case KeyWon(e) =>
      if e in m.listed && act != Busy then Go(m, t, KeyPopped(e)).(listed := m.listed - {e}) else Go(m, t, KeyFailed(e))
    case KeyFailed(e) => Go(Release(m, e), t, KeyReset(e))
    case KeyReset(e) => Go(m, t, Out).(evicting := m.evicting - {e})
    case KeyPopped(e) => Go(Release(m, e), t, Won(e))
    case Removing(e) => Go(m, t, Dropping(e)).(indexed := m.indexed - {e})
    case Dropping(e) => Go(Release(m, e), t, Out)
  }

  // ---------- what a thread has

  /** A reference; the replacement policy's place; the `evicting` flag. */
  datatype Thing = Ref | Place | Flag

  function Has(w: Thing, pc: Pc): nat {
    match w
    case Ref => if pc.Out? || pc.PutLink? || pc.KeyReset? || pc.Removing? then 0 else if pc.KeyPopped? then 2 else 1
    case Place => if pc.PutLink? || pc.Popped? || pc.Won? || pc.KeyPopped? || pc.Removing? then 1 else 0
    case Flag => if pc.Out? || pc.PutLink? || pc.Holding? || pc.Dropping? || pc.Popped? || pc.KeyGot? then 0 else 1
  }

  function Weight(w: Thing, e: int, pc: Pc): nat {
    if pc != Out && pc.e == e then Has(w, pc) else 0
  }

  function Sum(w: Thing, e: int, pcs: seq<Pc>): nat {
    if pcs == [] then 0 else Weight(w, e, pcs[0]) + Sum(w, e, pcs[1..])
  }

  lemma {:induction false} SumUpdate(w: Thing, e: int, pcs: seq<Pc>, t: nat, pc: Pc)
    requires t < |pcs|
    ensures Sum(w, e, pcs[t := pc]) + Weight(w, e, pcs[t]) == Sum(w, e, pcs) + Weight(w, e, pc)
  {
    var u := pcs[t := pc];
    if t == 0 {
      assert u[1..] == pcs[1..];
    } else {
      assert u[1..] == pcs[1..][t - 1 := pc];
      SumUpdate(w, e, pcs[1..], t - 1, pc);
    }
  }

  lemma {:induction false} SumAtLeast(w: Thing, e: int, pcs: seq<Pc>, t: nat)
    requires t < |pcs|
    ensures Weight(w, e, pcs[t]) <= Sum(w, e, pcs)
  {
    if t > 0 {
      SumAtLeast(w, e, pcs[1..], t - 1);
    }
  }

  // ---------- the invariant

  /** The count is the index's reference, the replacement policy's (listed, orphaned, or popped) and the readers'. */
  ghost predicate Counted(m: System, e: int) {
    && Refs(m, e) == OneIf(e in m.indexed) + OneIf(e in m.listed) + OneIf(e in m.orphans) + Sum(Ref, e, m.pcs)
    && (e in m.refcount <==> Refs(m, e) > 0)
  }

  /** An indexed entry is being linked, or listed, or popped by one thread, or orphaned; an unindexed one is none of these. */
  ghost predicate Placed(m: System, e: int) {
    OneIf(e in m.listed) + OneIf(e in m.orphans) + Sum(Place, e, m.pcs) == OneIf(e in m.indexed)
  }

  /** An indexed entry is flagged just when one thread is evicting it; for an unindexed one no thread is. */
  ghost predicate Flagged(m: System, e: int) {
    Sum(Flag, e, m.pcs) == OneIf(e in m.indexed && e in m.evicting)
  }

  ghost predicate EntryOk(m: System, e: int) {
    && Counted(m, e) && Placed(m, e) && Flagged(m, e)
    && (e in m.refcount || e in m.evicting ==> e < m.nextId)
    && (e in m.refcount && e !in m.indexed ==> e in m.evicting)
  }

  ghost predicate Inv(m: System) {
    forall e :: EntryOk(m, e)
  }

  lemma OnePc(m: System, t: nat, act: Act, e: int)
    requires t < |m.pcs|
    ensures var k := Step(m, t, act);
            && |k.pcs| == |m.pcs|
            && forall w :: Sum(w, e, k.pcs) + Weight(w, e, m.pcs[t]) == Sum(w, e, m.pcs) + Weight(w, e, k.pcs[t])
  {
    hide Sum, Weight;
    var k := Step(m, t, act);
    assert k.pcs == m.pcs[t := k.pcs[t]];
    forall w ensures Sum(w, e, k.pcs) + Weight(w, e, m.pcs[t]) == Sum(w, e, m.pcs) + Weight(w, e, k.pcs[t]) {
      SumUpdate(w, e, m.pcs, t, k.pcs[t]);
    }
  }

  predicate Releases(pc: Pc) {
    pc.Holding? || pc.Dropping? || pc.Won? || pc.KeyFailed? || pc.KeyPopped?
  }

  lemma StepBegins(m: System, t: nat, act: Act, e: int)
    requires t < |m.pcs| && Inv(m) && m.pcs[t].Out?
    ensures EntryOk(Step(m, t, act), e)
  {
    hide Sum;
    assert EntryOk(m, e) && EntryOk(m, m.nextId);
    OnePc(m, t, act, e);
    SumAtLeast(Ref, e, m.pcs, t);
    SumAtLeast(Place, e, m.pcs, t);
    SumAtLeast(Flag, e, m.pcs, t);
  }

  lemma StepReleases(m: System, t: nat, act: Act, e: int)
    requires t < |m.pcs| && Inv(m) && Releases(m.pcs[t])
    ensures EntryOk(Step(m, t, act), e)
  {
    hide Sum;
    assert EntryOk(m, e) && EntryOk(m, m.nextId);
    OnePc(m, t, act, e);
    SumAtLeast(Ref, e, m.pcs, t);
    SumAtLeast(Place, e, m.pcs, t);
    SumAtLeast(Flag, e, m.pcs, t);
  }

  lemma StepMoves(m: System, t: nat, act: Act, e: int)
    requires t < |m.pcs| && Inv(m) && !m.pcs[t].Out? && !Releases(m.pcs[t])
    ensures EntryOk(Step(m, t, act), e)
  {
    hide Sum;
    assert EntryOk(m, e) && EntryOk(m, m.nextId);
    OnePc(m, t, act, e);
    SumAtLeast(Ref, e, m.pcs, t);
    SumAtLeast(Place, e, m.pcs, t);
    SumAtLeast(Flag, e, m.pcs, t);
  }

  lemma StepEntry(m: System, t: nat, act: Act, e: int)
    requires t < |m.pcs| && Inv(m)
    ensures EntryOk(Step(m, t, act), e)
  {
    hide Inv, Step, EntryOk;
    if m.pcs[t].Out? {
      StepBegins(m, t, act, e);
    } else if Releases(m.pcs[t]) {
      StepReleases(m, t, act, e);
    } else {
      StepMoves(m, t, act, e);
    }
  }

  /** Every step of every thread keeps the invariant. */
  lemma StepInv(m: System, t: nat, act: Act)
    requires t < |m.pcs| && Inv(m)
    ensures Inv(Step(m, t, act)) && |Step(m, t, act).pcs| == |m.pcs|
  {
    hide Step, EntryOk;
    forall e ensures EntryOk(Step(m, t, act), e) { StepEntry(m, t, act, e); }
    OnePc(m, t, act, 0);
  }

  // ---------- every interleaving

  type Schedule = seq<(nat, Act)>

  predicate Schedulable(m: System, sched: Schedule) {
    forall i | 0 <= i < |sched| :: sched[i].0 < |m.pcs|
  }

  function Exec(m: System, sched: Schedule): System
    requires Schedulable(m, sched)
    decreases |sched|
  {
    if sched == [] then m
    else
      var k := Step(m, sched[0].0, sched[0].1);
      assert |k.pcs| == |m.pcs| by { OnePc(m, sched[0].0, sched[0].1, 0); }
      Exec(k, sched[1..])
  }

  lemma {:induction false} NobodyYet(n: nat, w: Thing, e: int)
    ensures Sum(w, e, seq(n, _ => Out)) == 0
  {
    if n > 0 {
      assert seq(n, _ => Out)[1..] == seq(n - 1, _ => Out);
      NobodyYet(n - 1, w, e);
    }
  }

  lemma StartInv(nthreads: nat)
    ensures Inv(Start(nthreads))
  {
    hide Sum;
    var m := Start(nthreads);
    forall e ensures EntryOk(m, e) {
      NobodyYet(nthreads, Ref, e);
      NobodyYet(nthreads, Place, e);
      NobodyYet(nthreads, Flag, e);
    }
  }

  /** Whatever the threads do, in whatever order, the invariant holds. */
  lemma {:induction false} AlwaysInv(m: System, sched: Schedule)
    requires Inv(m) && Schedulable(m, sched)
    ensures Inv(Exec(m, sched))
    decreases |sched|
  {
    hide Inv, Step;
    if sched != [] {
      StepInv(m, sched[0].0, sched[0].1);
      AlwaysInv(Step(m, sched[0].0, sched[0].1), sched[1..]);
    }
  }

  /** Whatever entry a thread is about to touch has not been freed; it releases only references that are counted,
      and it takes one only where there already is one. */
  lemma NoUseAfterFree(m: System, t: nat)
    requires Inv(m) && t < |m.pcs| && !m.pcs[t].Out?
    ensures var e := m.pcs[t].e;
            && e in m.refcount && 1 <= m.refcount[e]
            && (m.pcs[t].KeyPopped? ==> 3 <= m.refcount[e])
            && (m.pcs[t].Removing? || m.pcs[t].KeyReset? || m.pcs[t].PutLink? ==> e in m.indexed)
  {
    hide Sum;
    var e := m.pcs[t].e;
    assert EntryOk(m, e);
    SumAtLeast(Ref, e, m.pcs, t);
    SumAtLeast(Place, e, m.pcs, t);
    SumAtLeast(Flag, e, m.pcs, t);
  }

  /** An entry is freed by a release that leaves no reference: it is out of the index and off the list, no thread has
      anything to do with it, and its number is never given out again. */
  lemma FreedForGood(m: System, t: nat, act: Act, e: int)
    requires Inv(m) && t < |m.pcs| && e in m.refcount && e !in Step(m, t, act).refcount
    ensures Releases(m.pcs[t]) && m.pcs[t].e == e && m.refcount[e] == 1
    ensures var k := Step(m, t, act);
            && e !in k.indexed && e !in k.listed && e !in k.orphans && e < k.nextId
            && (forall u | 0 <= u < |k.pcs| :: k.pcs[u].Out? || k.pcs[u].e != e)
  {
    hide Sum;
    var k := Step(m, t, act);
    assert EntryOk(m, e);
    StepInv(m, t, act);
    assert EntryOk(k, e);
    forall u | 0 <= u < |k.pcs| ensures k.pcs[u].Out? || k.pcs[u].e != e {
      SumAtLeast(Ref, e, k.pcs, u);
      SumAtLeast(Place, e, k.pcs, u);
      SumAtLeast(Flag, e, k.pcs, u);
    }
  }

  /** Freed entries stay freed. */
  lemma {:induction false} NeverBack(m: System, sched: Schedule, e: int)
    requires Inv(m) && Schedulable(m, sched) && e < m.nextId && e !in m.refcount
    ensures e !in Exec(m, sched).refcount
    decreases |sched|
  {
    if sched != [] {
      var t, act := sched[0].0, sched[0].1;
      StepInv(m, t, act);
      FreedStays(m, t, act, e);
      hide Inv, Step;
      NeverBack(Step(m, t, act), sched[1..], e);
    }
  }

  lemma FreedStays(m: System, t: nat, act: Act, e: int)
    requires Inv(m) && t < |m.pcs| && e < m.nextId && e !in m.refcount
    ensures e !in Step(m, t, act).refcount && e < Step(m, t, act).nextId
  {
    hide Sum;
    assert EntryOk(m, e);
    SumAtLeast(Ref, e, m.pcs, t);
    SumAtLeast(Place, e, m.pcs, t);
    SumAtLeast(Flag, e, m.pcs, t);
  }

  /** At rest, an entry is indexed with two references, and listed unless it is stranded; or it is freed. */
  lemma AtRest(m: System, e: int)
    requires Inv(m) && (forall t | 0 <= t < |m.pcs| :: m.pcs[t].Out?)
    ensures e in m.refcount <==> e in m.indexed
    ensures e in m.indexed ==> m.refcount[e] == 2 && (e in m.listed <==> !Stranded(m, e))
    ensures e in m.indexed ==> e !in m.evicting
  {
    hide Sum;
    AllOut(m.pcs, Ref, e);
    AllOut(m.pcs, Place, e);
    AllOut(m.pcs, Flag, e);
    assert EntryOk(m, e);
  }

  lemma {:induction false} AllOut(pcs: seq<Pc>, w: Thing, e: int)
    requires forall t | 0 <= t < |pcs| :: pcs[t].Out?
    ensures Sum(w, e, pcs) == 0
  {
    if pcs != [] {
      AllOut(pcs[1..], w, e);
    }
  }

  // ---------- how long an entry is found

  /** Somewhere in this run an evictor takes the entry out of the index. */
  predicate TakenOut(m: System, sched: Schedule, e: int)
    requires Schedulable(m, sched)
    decreases |sched|
  {
    sched != [] &&
      var t, act := sched[0].0, sched[0].1;
      assert |Step(m, t, act).pcs| == |m.pcs| by { OnePc(m, t, act, 0); }
      m.pcs[t] == Removing(e) || TakenOut(Step(m, t, act), sched[1..], e)
  }

  lemma IndexStep(m: System, t: nat, act: Act, e: int)
    requires Inv(m) && t < |m.pcs| && e < m.nextId
    ensures e in Step(m, t, act).indexed <==> e in m.indexed && m.pcs[t] != Removing(e)
    ensures e < Step(m, t, act).nextId
  {
    hide Sum;
    assert EntryOk(m, e);
  }

  lemma {:induction false} IndexRun(m: System, sched: Schedule, e: int)
    requires Inv(m) && Schedulable(m, sched) && e < m.nextId
    ensures e in Exec(m, sched).indexed <==> e in m.indexed && !TakenOut(m, sched, e)
    decreases |sched|
  {
    if sched != [] {
      var t, act := sched[0].0, sched[0].1;
      StepInv(m, t, act);
      IndexStep(m, t, act, e);
      hide Inv, Step;
      IndexRun(Step(m, t, act), sched[1..], e);
    }
  }

  /** After any run, a get finds an entry, and holds it, exactly if it was there and no evictor has taken it out of the
      index since, be it popped, flagged or stranded meanwhile. */
  lemma FoundUntilTakenOut(m: System, sched: Schedule, e: int, t: nat)
    requires Inv(m) && Schedulable(m, sched) && e < m.nextId && t < |m.pcs|
    ensures var k := Exec(m, sched);
            && |k.pcs| == |m.pcs|
            && (k.pcs[t] == Out ==>
                  (Step(k, t, Get(e)).pcs[t] == Holding(e) <==> e in m.indexed && !TakenOut(m, sched, e)))
  {
    IndexRun(m, sched, e);
    SameThreads(m, sched);
  }

  lemma {:induction false} SameThreads(m: System, sched: Schedule)
    requires Schedulable(m, sched)
    ensures |Exec(m, sched).pcs| == |m.pcs|
    decreases |sched|
  {
    hide Step;
    if sched != [] {
      OnePc(m, sched[0].0, sched[0].1, 0);
      SameThreads(Step(m, sched[0].0, sched[0].1), sched[1..]);
    }
  }

  // ---------- the evictor that loses the flag

  /** Indexed, yet neither listed nor with a thread that will list or remove it: nothing can evict it any more. */
  ghost predicate Stranded(m: System, e: int) {
    e in m.indexed && e !in m.listed && Sum(Place, e, m.pcs) == 0
  }

  lemma StrandedIsOrphan(m: System, e: int)
    requires Inv(m)
    ensures Stranded(m, e) <==> e in m.orphans
  {
    hide Sum;
    assert EntryOk(m, e);
  }

  /** The only way for an entry to become stranded: an evictor has popped it and then finds the flag set. */
  lemma StrandedBy(m: System, t: nat, act: Act, e: int)
    requires Inv(m) && t < |m.pcs|
    ensures Stranded(Step(m, t, act), e) <==> Stranded(m, e) || (m.pcs[t] == Popped(e) && e in m.evicting)
  {
    StepInv(m, t, act);
    StrandedIsOrphan(m, e);
    StrandedIsOrphan(Step(m, t, act), e);
    hide Inv, Stranded;
  }

  /** A stranded entry stays so, with both its references, whatever happens. */
  lemma {:induction false} StrandedForever(m: System, sched: Schedule, e: int)
    requires Inv(m) && Schedulable(m, sched) && Stranded(m, e)
    ensures var k := Exec(m, sched); Stranded(k, e) && 2 <= Refs(k, e)
    decreases |sched|
  {
    if sched == [] {
      assert EntryOk(m, e);
    } else {
      var t, act := sched[0].0, sched[0].1;
      StepInv(m, t, act);
      StrandedBy(m, t, act, e);
      hide Inv, Step, Stranded;
      StrandedForever(Step(m, t, act), sched[1..], e);
    }
  }

  /** Put one step in front of a schedule. */
  lemma Before(m: System, t: nat, act: Act, k: System, rest: Schedule, end: System) returns (sched: Schedule)
    requires t < |m.pcs| && Step(m, t, act) == k && Schedulable(k, rest) && Exec(k, rest) == end
    ensures Schedulable(m, sched) && Exec(m, sched) == end
  {
    hide Step;
    OnePc(m, t, act, 0);
    sched := [(t, act)] + rest;
    assert sched[1..] == rest;
  }

  const FLAGGED := System(map[1 := 3], {1}, {1}, {1}, {}, [KeyWon(1), Out], 2)
  const STRANDED := System(map[1 := 2], {1}, {}, {}, {1}, [Out, Out], 2)

  lemma FlaggedThenStranded() returns (sched: Schedule)
    ensures Schedulable(FLAGGED, sched) && Exec(FLAGGED, sched) == STRANDED
  {
    hide Exec, Schedulable;
    var s1 := FLAGGED.(listed := {}, pcs := [KeyWon(1), Popped(1)]);
    var s2 := s1.(orphans := {1}, pcs := [KeyWon(1), Out]);
    var s3 := s2.(pcs := [KeyFailed(1), Out]);
    var s4 := s3.(refcount := map[1 := 2], pcs := [KeyReset(1), Out]);
    ExecNone(STRANDED);
    sched := Before(s4, 0, GoOn, STRANDED, [], STRANDED);
    sched := Before(s3, 0, GoOn, s4, sched, STRANDED);
    sched := Before(s2, 0, GoOn, s3, sched, STRANDED);
    sched := Before(s1, 1, GoOn, s2, sched, STRANDED);
    sched := Before(FLAGGED, 1, EvictAny(1), s1, sched, STRANDED);
  }

  /** Such a run: thread 0 evicts entry 1 by key and gets the flag; thread 1 pops the entry as the oldest one and loses;
      thread 0 then finds the entry unlisted and gives up. Afterwards nobody is at work and the entry is stranded. */
  lemma StrandingHappens() returns (sched: Schedule)
    ensures Schedulable(Start(2), sched) && Exec(Start(2), sched) == STRANDED && Stranded(STRANDED, 1)
  {
    hide Exec, Schedulable;
    var s0 := System(map[], {}, {}, {}, {}, [Out, Out], 1);
    var s1 := System(map[1 := 1], {1}, {}, {}, {}, [PutLink(1), Out], 2);
    var s2 := s1.(refcount := map[1 := 2], listed := {1}, pcs := [Out, Out]);
    var s3 := s2.(refcount := map[1 := 3], pcs := [KeyGot(1), Out]);
    sched := FlaggedThenStranded();
    sched := Before(s3, 0, GoOn, FLAGGED, sched, STRANDED);
    sched := Before(s2, 0, EvictKey(1), s3, sched, STRANDED);
    sched := Before(s1, 0, GoOn, s2, sched, STRANDED);
    sched := Before(s0, 0, Put, s1, sched, STRANDED);
    assert Start(2) == s0;
    assert [Out, Out][1..] == [Out] && [Out][1..] == [];
  }

  lemma ExecNone(m: System)
    ensures Schedulable(m, []) && Exec(m, []) == m
  {
  }
}
