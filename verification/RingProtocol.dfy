/** The ring buffer under concurrency: any number of threads, one atomic step at a time. */
module RingProtocol {
  import opened Sums

  /** Where a thread stands inside ringbuf_tryenqueue or ringbuf_trydequeue. */
  datatype Phase =
    | Idle
    | EnqPermit(item: int)
    | EnqTicket(item: int, w: nat)
    | EnqStored
    | DeqPermit
    | DeqTicket(r: nat)
    | DeqLoaded(r: nat, data: int)
    | DeqTaken(data: int)

  /** The shared state, the threads, and (as history) what was accepted and what was returned; 0 is NULL. */
  datatype Ring = Ring(nfree: int, nused: int, readPos: nat, writePos: nat, slots: seq<int>, threads: seq<Phase>,
                       accepted: multiset<int>, returned: multiset<int>)

  /** What the scheduler may ask of a thread: start an operation, or go on with the current one. */
  datatype Act = Enqueue(item: int) | Dequeue | GoOn

  function Start(len: nat, nthreads: nat): Ring {
    Ring(len, 0, 0, 0, seq(len, _ => 0), seq(nthreads, _ => Idle), multiset{}, multiset{})
  }

  /** One atomic step of thread `t`; a failed attempt or a spin changes nothing. */
  function Apply(c: Ring, t: nat, act: Act): Ring
    requires t < |c.threads| && 0 < |c.slots|
  {
    match c.threads[t]
    case Idle =>
      if act.Enqueue? && act.item != 0 && c.nfree > 0 then
        Go(c, t, EnqPermit(act.item)).(nfree := c.nfree - 1, accepted := c.accepted + multiset{act.item})
      else if act.Dequeue? && c.nused > 0 then
        Go(c, t, DeqPermit).(nused := c.nused - 1)
      else c
    case EnqPermit(item) => Go(c, t, EnqTicket(item, c.writePos)).(writePos := c.writePos + 1)
    case EnqTicket(item, w) =>
      if c.slots[w % |c.slots|] == 0
      then Go(c, t, EnqStored).(slots := c.slots[w % |c.slots| := item])
      else c
    case EnqStored => Go(c, t, Idle).(nused := c.nused + 1)
    case DeqPermit => Go(c, t, DeqTicket(c.readPos)).(readPos := c.readPos + 1)
    case DeqTicket(r) =>
      if c.slots[r % |c.slots|] != 0 then Go(c, t, DeqLoaded(r, c.slots[r % |c.slots|])) else c
    case DeqLoaded(r, data) =>
      if c.slots[r % |c.slots|] == data
      then Go(c, t, DeqTaken(data)).(slots := c.slots[r % |c.slots| := 0])
      else Go(c, t, DeqTicket(r))
    case DeqTaken(data) => Go(c, t, Idle).(nfree := c.nfree + 1, returned := c.returned + multiset{data})
  }

  function Go(c: Ring, t: nat, p: Phase): Ring
    requires t < |c.threads|
  {
    c.(threads := c.threads[t := p])
  }

  /** The kinds of thread and slot that the invariants count. */
  datatype Kind = Busy | Pending | Backing | Laden | EnqAt(slot: int) | DeqAt(slot: int) | Holding(item: int)

  predicate Is(k: Kind, p: Phase, len: nat)
    requires 0 < len
  {
    match k
    case Busy => p != Idle
    case Pending => p.DeqPermit? || p.EnqTicket? || p.EnqStored?
    case Backing => p.EnqStored? || p.DeqPermit? || p.DeqTicket? || p.DeqLoaded?
    case Laden => p.EnqPermit? || p.EnqTicket? || p.DeqTaken?
    case EnqAt(s) => p.EnqTicket? && p.w % len == s
    case DeqAt(s) => (p.DeqTicket? || p.DeqLoaded?) && p.r % len == s
    case Holding(x) => (p.EnqPermit? && p.item == x) || (p.EnqTicket? && p.item == x) || (p.DeqTaken? && p.data == x)
  }

  function Count(threads: seq<Phase>, k: Kind, len: nat): nat
    requires 0 < len
  {
    if threads == [] then 0 else (if Is(k, threads[0], len) then 1 else 0) + Count(threads[1..], k, len)
  }

  lemma {:induction false} CountUpdate(threads: seq<Phase>, k: Kind, len: nat, t: nat, p: Phase)
    requires 0 < len && t < |threads|
    ensures Count(threads[t := p], k, len) + (if Is(k, threads[t], len) then 1 else 0)
            == Count(threads, k, len) + (if Is(k, p, len) then 1 else 0)
  {
    var u := threads[t := p];
    if t == 0 {
      assert u[1..] == threads[1..];
    } else {
      assert u[1..] == threads[1..][t - 1 := p];
      CountUpdate(threads[1..], k, len, t - 1, p);
    }
  }

  /** A positive count has a witness. */
  lemma {:induction false} CountWitness(threads: seq<Phase>, k: Kind, len: nat) returns (t: nat)
    requires 0 < len && Count(threads, k, len) > 0
    ensures t < |threads| && Is(k, threads[t], len)
  {
    if Is(k, threads[0], len) {
      t := 0;
    } else {
      var u := CountWitness(threads[1..], k, len);
      t := u + 1;
    }
  }

  lemma {:induction false} CountAtLeast(threads: seq<Phase>, k: Kind, len: nat, t: nat)
    requires 0 < len && t < |threads| && Is(k, threads[t], len)
    ensures Count(threads, k, len) > 0
  {
    if t > 0 {
      CountAtLeast(threads[1..], k, len, t - 1);
    }
  }

  // ---------- tickets

  /** How many of the positions below `pos` belong to slot `s`. */
  function Tickets(pos: nat, s: int, len: nat): nat
    requires 0 < len
  {
    if pos == 0 then 0 else Tickets(pos - 1, s, len) + (if (pos - 1) % len == s then 1 else 0)
  }

  lemma {:induction false} TicketsGrow(a: nat, b: nat, s: int, len: nat)
    requires 0 < len && a <= b
    ensures Tickets(a, s, len) <= Tickets(b, s, len)
    decreases b
  {
    if a < b {
      TicketsGrow(a, b - 1, s, len);
    }
  }

  lemma {:induction false} FirstLap(pos: nat, s: int, len: nat)
    requires 0 < len && pos <= len && 0 <= s < len
    ensures Tickets(pos, s, len) == if s < pos then 1 else 0
  {
    if pos > 0 {
      FirstLap(pos - 1, s, len);
      Small(pos - 1, len);
    }
  }

  lemma Small(x: nat, len: nat)
    requires x < len
    ensures x % len == x && (x + len) % len == x
  {
  }

  lemma NextLap(x: nat, len: nat)
    requires 0 < len
    ensures (x + len) % len == x % len
  {
    assert x == (x / len) * len + x % len;
    assert x + len == (x / len + 1) * len + x % len;
    Residue(x + len, x / len + 1, x % len, len);
  }

  /** A lap hands out each slot exactly once. */
  lemma {:induction false} OneLap(pos: nat, s: int, len: nat)
    requires 0 < len && 0 <= s < len
    ensures Tickets(pos + len, s, len) == Tickets(pos, s, len) + 1
  {
    if pos == 0 {
      FirstLap(len, s, len);
    } else {
      OneLap(pos - 1, s, len);
      NextLap(pos - 1, len);
    }
  }

  /** Positions wrap at 64 bits; as the length divides 2^64, masking the wrapped counter gives the same slot. */
  lemma WrappedSlot(pos: nat, wrap: nat, len: nat, laps: nat)
    requires 0 < len && wrap == laps * len && 0 < wrap
    ensures pos % wrap % len == pos % len
  {
    var q, r := pos / wrap, pos % wrap;
    var a, b := r / len, r % len;
    assert pos == q * wrap + r && r == a * len + b;
    assert q * wrap == (q * laps) * len;
    assert pos == (q * laps + a) * len + b;
    Residue(pos, q * laps + a, b, len);
  }

  // ---------- the invariant

  predicate NoNull(p: Phase) {
    && (p.EnqPermit? || p.EnqTicket? ==> p.item != 0)
    && (p.DeqLoaded? || p.DeqTaken? ==> p.data != 0)
  }

  function Full(slots: seq<int>): nat {
    if slots == [] then 0 else (if slots[0] != 0 then 1 else 0) + Full(slots[1..])
  }

  /** Every permit is free, used, or with the thread that works on it. */
  ghost predicate Permits(c: Ring)
    requires c.slots != []
  {
    0 <= c.nfree && 0 <= c.nused && c.nfree + c.nused + Count(c.threads, Busy, |c.slots|) == |c.slots|
  }

  ghost predicate Positions(c: Ring)
    requires c.slots != []
  {
    c.writePos - c.readPos == c.nused + Count(c.threads, Pending, |c.slots|)
  }

  /** A slot is full or not by the tickets handed out for it and not yet honoured. */
  ghost predicate SlotOk(c: Ring, s: int)
    requires 0 <= s < |c.slots|
  {
    (if c.slots[s] != 0 then 1 else 0)
    == Tickets(c.writePos, s, |c.slots|) - Tickets(c.readPos, s, |c.slots|)
       - Count(c.threads, EnqAt(s), |c.slots|) + Count(c.threads, DeqAt(s), |c.slots|)
  }

  function Copies(slots: seq<int>, x: int): nat {
    multiset(slots)[x]
  }

  lemma CopiesUpdate(slots: seq<int>, s: nat, y: int, x: int)
    requires s < |slots|
    ensures Copies(slots[s := y], x) + (if slots[s] == x then 1 else 0) == Copies(slots, x) + (if y == x then 1 else 0)
  {
    assert slots[s] in multiset(slots);
  }

  /** Each item accepted was returned, is in a slot, or is with a thread: none is lost and none doubled. */
  ghost predicate ItemOk(c: Ring, x: int)
    requires c.slots != []
  {
    c.accepted[x] == c.returned[x] + Copies(c.slots, x) + Count(c.threads, Holding(x), |c.slots|)
  }

  ghost predicate Backed(c: Ring)
    requires c.slots != []
  {
    Full(c.slots) == c.nused + Count(c.threads, Backing, |c.slots|)
  }

  /** As many items are inside as are in slots or with a thread. */
  ghost predicate Population(c: Ring)
    requires c.slots != []
  {
    |c.accepted| == |c.returned| + Full(c.slots) + Count(c.threads, Laden, |c.slots|)
  }

  ghost predicate Inv(c: Ring) {
    && c.slots != [] && Permits(c) && Positions(c) && Backed(c) && Population(c)
    && (forall s | 0 <= s < |c.slots| :: SlotOk(c, s))
    && (forall x | x != 0 :: ItemOk(c, x))
    && (forall t | 0 <= t < |c.threads| :: NoNull(c.threads[t]))
    && c.accepted[0] == 0 && c.returned[0] == 0
  }

  lemma OneThread(c: Ring, t: nat, act: Act, k: Kind)
    requires t < |c.threads| && c.slots != []
    ensures var d, n := Apply(c, t, act), |c.slots|;
            && |d.slots| == n && d.threads == c.threads[t := d.threads[t]]
            && Count(d.threads, k, n) + (if Is(k, c.threads[t], n) then 1 else 0)
               == Count(c.threads, k, n) + (if Is(k, d.threads[t], n) then 1 else 0)
  {
    hide Count, Is;
    CountUpdate(c.threads, k, |c.slots|, t, Apply(c, t, act).threads[t]);
  }

  lemma StepPermits(c: Ring, t: nat, act: Act)
    requires t < |c.threads| && c.slots != [] && Permits(c)
    ensures Permits(Apply(c, t, act))
  {
    hide Count;
    OneThread(c, t, act, Busy);
  }

  lemma StepPositions(c: Ring, t: nat, act: Act)
    requires t < |c.threads| && c.slots != [] && Positions(c)
    ensures Positions(Apply(c, t, act))
  {
    hide Count;
    OneThread(c, t, act, Pending);
  }

  lemma StepSlot(c: Ring, t: nat, act: Act, s: int)
    requires t < |c.threads| && 0 <= s < |c.slots| && SlotOk(c, s) && NoNull(c.threads[t])
    ensures |Apply(c, t, act).slots| == |c.slots| && SlotOk(Apply(c, t, act), s)
  {
    hide Count;
    OneThread(c, t, act, EnqAt(s));
    OneThread(c, t, act, DeqAt(s));
  }

  lemma StepItem(c: Ring, t: nat, act: Act, x: int)
    requires t < |c.threads| && c.slots != [] && ItemOk(c, x) && NoNull(c.threads[t]) && x != 0
    ensures ItemOk(Apply(c, t, act), x)
  {
    hide Count, Copies;
    OneThread(c, t, act, Holding(x));
    match c.threads[t] {
      case EnqTicket(item, w) => CopiesUpdate(c.slots, w % |c.slots|, item, x);
      case DeqLoaded(r, _) => CopiesUpdate(c.slots, r % |c.slots|, 0, x);
      case _ =>
    }
  }

  lemma {:induction false} FullUpdate(slots: seq<int>, s: nat, x: int)
    requires s < |slots|
    ensures Full(slots[s := x]) + (if slots[s] != 0 then 1 else 0) == Full(slots) + (if x != 0 then 1 else 0)
  {
    var u := slots[s := x];
    if s == 0 {
      assert u[1..] == slots[1..];
    } else {
      assert u[1..] == slots[1..][s - 1 := x];
      FullUpdate(slots[1..], s - 1, x);
    }
  }

  lemma StepBacked(c: Ring, t: nat, act: Act)
    requires t < |c.threads| && c.slots != [] && Backed(c) && NoNull(c.threads[t])
    ensures Backed(Apply(c, t, act))
  {
    hide Count, Full;
    OneThread(c, t, act, Backing);
    match c.threads[t] {
      case EnqTicket(item, w) => FullUpdate(c.slots, w % |c.slots|, item);
      case DeqLoaded(r, _) => FullUpdate(c.slots, r % |c.slots|, 0);
      case _ =>
    }
  }

  lemma StepPopulation(c: Ring, t: nat, act: Act)
    requires t < |c.threads| && c.slots != [] && Population(c) && NoNull(c.threads[t])
    ensures Population(Apply(c, t, act))
  {
    hide Count, Full;
    OneThread(c, t, act, Laden);
    match c.threads[t] {
      case EnqTicket(item, w) => FullUpdate(c.slots, w % |c.slots|, item);
      case DeqLoaded(r, _) => FullUpdate(c.slots, r % |c.slots|, 0);
      case _ =>
    }
  }

  /** Every step of every thread keeps the invariant. */
  lemma StepInv(c: Ring, t: nat, act: Act)
    requires t < |c.threads| && Inv(c)
    ensures Inv(Apply(c, t, act)) && |Apply(c, t, act).threads| == |c.threads| && |Apply(c, t, act).slots| == |c.slots|
  {
    hide Permits, Positions, Backed, Population, SlotOk, ItemOk;
    assert NoNull(c.threads[t]);
    StepPermits(c, t, act);
    StepPositions(c, t, act);
    StepBacked(c, t, act);
    StepPopulation(c, t, act);
    forall s | 0 <= s < |c.slots| ensures SlotOk(Apply(c, t, act), s) { StepSlot(c, t, act, s); }
    forall x | x != 0 ensures ItemOk(Apply(c, t, act), x) { StepItem(c, t, act, x); }
  }

  // ---------- every interleaving

  /** A schedule names the thread to run and what it is asked to do, step after step. */
  type Schedule = seq<(nat, Act)>

  predicate Schedulable(c: Ring, sched: Schedule) {
    forall i | 0 <= i < |sched| :: sched[i].0 < |c.threads|
  }

  function Exec(c: Ring, sched: Schedule): Ring
    requires c.slots != [] && Schedulable(c, sched)
    decreases |sched|
  {
    if sched == [] then c
    else
      var d := Apply(c, sched[0].0, sched[0].1);
      assert |d.threads| == |c.threads| && |d.slots| == |c.slots| by { OneThread(c, sched[0].0, sched[0].1, Busy); }
      Exec(d, sched[1..])
  }

  lemma {:induction false} NobodyYet(n: nat, k: Kind, len: nat)
    requires 0 < len
    ensures Count(seq(n, _ => Idle), k, len) == 0
  {
    if n > 0 {
      assert seq(n, _ => Idle)[1..] == seq(n - 1, _ => Idle);
      NobodyYet(n - 1, k, len);
    }
  }

  lemma {:induction false} AllNull(len: nat)
    ensures Full(seq(len, _ => 0)) == 0
  {
    if len > 0 {
      assert seq(len, _ => 0)[1..] == seq(len - 1, _ => 0);
      AllNull(len - 1);
    }
  }

  lemma StartInv(len: nat, nthreads: nat)
    requires 0 < len
    ensures Inv(Start(len, nthreads))
  {
    hide Count, Full;
    var c := Start(len, nthreads);
    forall k ensures Count(c.threads, k, len) == 0 { NobodyYet(nthreads, k, len); }
    AllNull(len);
    forall x | x != 0 ensures ItemOk(c, x) { assert x !in c.slots; }
  }

  /** Whatever the threads do, in whatever order, the invariant holds. */
  lemma {:induction false} AlwaysInv(c: Ring, sched: Schedule)
    requires Inv(c) && Schedulable(c, sched)
    ensures Inv(Exec(c, sched))
    decreases |sched|
  {
    hide Inv;
    assert c.slots != [] by { HasSlots(c); }
    if sched != [] {
      StepInv(c, sched[0].0, sched[0].1);
      AlwaysInv(Apply(c, sched[0].0, sched[0].1), sched[1..]);
    }
  }

  lemma HasSlots(c: Ring)
    requires Inv(c)
    ensures c.slots != []
  {
  }

  lemma {:induction false} CountBelow(threads: seq<Phase>, j: Kind, k: Kind, len: nat)
    requires 0 < len && (forall p :: Is(j, p, len) ==> Is(k, p, len))
    ensures Count(threads, j, len) <= Count(threads, k, len)
  {
    if threads != [] {
      CountBelow(threads[1..], j, k, len);
    }
  }

  /** The writers are never more than one lap ahead, nor ever behind. */
  lemma WithinOneLap(c: Ring)
    requires Inv(c)
    ensures 0 <= c.writePos - c.readPos <= |c.slots|
  {
    CountBelow(c.threads, Pending, Busy, |c.slots|);
  }

  lemma TicketsInFlight(c: Ring, s: int)
    requires Inv(c) && 0 <= s < |c.slots|
    ensures 0 <= Tickets(c.writePos, s, |c.slots|) - Tickets(c.readPos, s, |c.slots|) <= 1
  {
    WithinOneLap(c);
    TicketsGrow(c.readPos, c.writePos, s, |c.slots|);
    TicketsGrow(c.writePos, c.readPos + |c.slots|, s, |c.slots|);
    OneLap(c.readPos, s, |c.slots|);
  }

  /** A dequeuer that finds its slot empty waits for an enqueuer whose next step fills that slot. */
  lemma SpinningDequeuer(c: Ring, t: nat) returns (u: nat)
    requires Inv(c) && t < |c.threads| && c.threads[t].DeqTicket? && c.slots[c.threads[t].r % |c.slots|] == 0
    ensures u < |c.threads| && c.threads[u].EnqTicket? && c.threads[u].w % |c.slots| == c.threads[t].r % |c.slots|
    ensures Apply(c, u, GoOn).threads[u] == EnqStored
    ensures Apply(c, u, GoOn).slots == c.slots[c.threads[t].r % |c.slots| := c.threads[u].item]
  {
    hide Count;
    var s := c.threads[t].r % |c.slots|;
    assert SlotOk(c, s);
    TicketsInFlight(c, s);
    CountAtLeast(c.threads, DeqAt(s), |c.slots|, t);
    u := CountWitness(c.threads, EnqAt(s), |c.slots|);
  }

  /** An enqueuer that finds its slot full waits for a dequeuer with a ticket for that slot. */
  lemma SpinningEnqueuer(c: Ring, t: nat) returns (u: nat)
    requires Inv(c) && t < |c.threads| && c.threads[t].EnqTicket? && c.slots[c.threads[t].w % |c.slots|] != 0
    ensures u < |c.threads| && (c.threads[u].DeqTicket? || c.threads[u].DeqLoaded?)
    ensures c.threads[u].r % |c.slots| == c.threads[t].w % |c.slots|
  {
    hide Count;
    var s := c.threads[t].w % |c.slots|;
    assert SlotOk(c, s);
    TicketsInFlight(c, s);
    CountAtLeast(c.threads, EnqAt(s), |c.slots|, t);
    u := CountWitness(c.threads, DeqAt(s), |c.slots|);
  }

  // ---------- no interleaving gets stuck

  function Rank(p: Phase): nat {
    match p
    case Idle => 0
    case EnqPermit(_) => 3
    case EnqTicket(_, _) => 2
    case EnqStored => 1
    case DeqPermit => 4
    case DeqTicket(_) => 2
    case DeqLoaded(_, _) => 3
    case DeqTaken(_) => 1
  }

  function Work(threads: seq<Phase>): nat {
    if threads == [] then 0 else Rank(threads[0]) + Work(threads[1..])
  }

  lemma {:induction false} WorkUpdate(threads: seq<Phase>, t: nat, p: Phase)
    requires t < |threads|
    ensures Work(threads[t := p]) + Rank(threads[t]) == Work(threads) + Rank(p)
  {
    var u := threads[t := p];
    if t == 0 {
      assert u[1..] == threads[1..];
    } else {
      assert u[1..] == threads[1..][t - 1 := p];
      WorkUpdate(threads[1..], t - 1, p);
    }
  }

  /** While some thread is busy, one thread can take one or two steps that bring the whole nearer to rest. */
  lemma Productive(c: Ring) returns (u: nat, twice: bool)
    requires Inv(c) && Count(c.threads, Busy, |c.slots|) > 0
    ensures u < |c.threads|
    ensures var d := Apply(c, u, GoOn);
            && u < |d.threads| && d.slots != []
            && Work((if twice then Apply(d, u, GoOn) else d).threads) < Work(c.threads)
  {
    hide Count, Work;
    u := CountWitness(c.threads, Busy, |c.slots|);
    var p := c.threads[u];
    if p.EnqTicket? && c.slots[p.w % |c.slots|] != 0 {
      u := SpinningEnqueuer(c, u);
    } else if p.DeqTicket? && c.slots[p.r % |c.slots|] == 0 {
      u := SpinningDequeuer(c, u);
    }
    twice := c.threads[u].DeqTicket?;
    OneThread(c, u, GoOn, Busy);
    var d := Apply(c, u, GoOn);
    WorkUpdate(c.threads, u, d.threads[u]);
    if twice {
      OneThread(d, u, GoOn, Busy);
      WorkUpdate(d.threads, u, Apply(d, u, GoOn).threads[u]);
    }
  }

  /** From every state that can arise, the operations under way can all be finished. */
  lemma {:induction false} Drains(c: Ring) returns (sched: Schedule)
    requires Inv(c)
    ensures Schedulable(c, sched) && (forall i | 0 <= i < |sched| :: sched[i].1 == GoOn)
    ensures Count(Exec(c, sched).threads, Busy, |c.slots|) == 0
    decreases Work(c.threads)
  {
    hide Inv, Count, Work, Apply;
    HasSlots(c);
    sched := [];
    if Count(c.threads, Busy, |c.slots|) > 0 {
      var u, twice := Productive(c);
      StepInv(c, u, GoOn);
      var d := Apply(c, u, GoOn);
      if twice {
        StepInv(d, u, GoOn);
        var rest := Drains(Apply(d, u, GoOn));
        sched := [(u, GoOn)] + ([(u, GoOn)] + rest);
        assert ([(u, GoOn)] + rest)[1..] == rest;
        assert sched[1..] == [(u, GoOn)] + rest;
      } else {
        var rest := Drains(d);
        sched := [(u, GoOn)] + rest;
        assert sched[1..] == rest;
      }
    }
  }

  /** At rest, what was accepted and not returned is in the slots, and the counters say how much that is. */
  lemma Quiescent(c: Ring, x: int)
    requires Inv(c) && Count(c.threads, Busy, |c.slots|) == 0
    ensures c.nused == c.writePos - c.readPos == Full(c.slots) && c.nfree == |c.slots| - c.nused
    ensures x != 0 ==> c.accepted[x] == c.returned[x] + multiset(c.slots)[x]
  {
    var n := |c.slots|;
    CountBelow(c.threads, Pending, Busy, n);
    CountBelow(c.threads, Backing, Busy, n);
    CountBelow(c.threads, Holding(x), Busy, n);
    assert x != 0 ==> ItemOk(c, x);
  }
}
