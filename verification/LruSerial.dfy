/** The concurrent LRU with its operations run one after the other: it does what the serial one does. */
module LruSerial {
  import opened Sequences
  import opened LruSpec
  import opened LruProtocol
  import B = RingBuffer

  // ---------- the ring run by one thread

  /** The ring holds this queue, and nobody is inside. */
  ghost predicate Queues(c: R.Ring, q: seq<int>) {
    && B.Window(c.slots, c.readPos, q) && c.writePos == c.readPos + |q| && c.nused == |q| && c.nfree == |c.slots| - |q|
  }

  /** A whole enqueue: permit, ticket, store, post. */
  lemma EnqueueRun(c: R.Ring, t: nat, q: seq<int>, x: int)
    requires Queues(c, q) && t < |c.threads| && c.threads[t] == R.Idle && |q| < |c.slots| && x != 0
    ensures var c1 := R.Apply(c, t, R.Enqueue(x));
            && |c1.threads| == |c.threads| && |c1.slots| == |c.slots| && c1.threads[t] != R.Idle
            && var c2 := R.Apply(c1, t, R.GoOn);
               && |c2.threads| == |c.threads| && |c2.slots| == |c.slots| && c2.threads[t] != R.Idle
               && var c3 := R.Apply(c2, t, R.GoOn);
                  && |c3.threads| == |c.threads| && |c3.slots| == |c.slots| && c3.threads[t] != R.Idle
                  && var c4 := R.Apply(c3, t, R.GoOn);
                     && c4.threads == c.threads && |c4.slots| == |c.slots| && Queues(c4, q + [x])
  {
    hide B.Window;
    B.WindowPush(c.slots, c.readPos, q, x);
    assert B.Slot(c.readPos + |q|, |c.slots|) == c.writePos % |c.slots|;
    var c1 := R.Apply(c, t, R.Enqueue(x));
    var c2 := R.Apply(c1, t, R.GoOn);
    var c3 := R.Apply(c2, t, R.GoOn);
    var c4 := R.Apply(c3, t, R.GoOn);
    assert c4.threads == c.threads;
  }

  /** A whole dequeue: permit, ticket, load, take, post. */
  lemma DequeueRun(c: R.Ring, t: nat, q: seq<int>)
    requires Queues(c, q) && t < |c.threads| && c.threads[t] == R.Idle && q != []
    ensures var c1 := R.Apply(c, t, R.Dequeue);
            && |c1.threads| == |c.threads| && |c1.slots| == |c.slots| && c1.threads[t] == R.DeqPermit
            && var c2 := R.Apply(c1, t, R.GoOn);
               && |c2.threads| == |c.threads| && |c2.slots| == |c.slots| && c2.threads[t].DeqTicket?
               && var c3 := R.Apply(c2, t, R.GoOn);
                  && |c3.threads| == |c.threads| && |c3.slots| == |c.slots| && c3.threads[t].DeqLoaded?
                  && var c4 := R.Apply(c3, t, R.GoOn);
                     && |c4.threads| == |c.threads| && |c4.slots| == |c.slots| && c4.threads[t] == R.DeqTaken(q[0])
                     && var c5 := R.Apply(c4, t, R.GoOn);
                        && c5.threads == c.threads && |c5.slots| == |c.slots| && Queues(c5, q[1..])
  {
    hide B.Window;
    B.WindowPop(c.slots, c.readPos, q);
    assert B.Slot(c.readPos, |c.slots|) == c.readPos % |c.slots|;
    var c1 := R.Apply(c, t, R.Dequeue);
    var c2 := R.Apply(c1, t, R.GoOn);
    var c3 := R.Apply(c2, t, R.GoOn);
    var c4 := R.Apply(c3, t, R.GoOn);
    var c5 := R.Apply(c4, t, R.GoOn);
    assert c5.threads == c.threads;
  }

  // ---------- one thread at work

  /** Nobody but `t` is at work; it holds the entries `held`, and no permit of the ring. */
  ghost predicate Lone(m: Machine, t: nat, pc: Pc, b: Buffered<int>, held: set<int>) {
    && Sized(m) && t < |m.pcs| && m.pcs[t] == pc && m.ring.threads[t] == R.Idle
    && (forall u | 0 <= u < |m.pcs| && u != t :: m.pcs[u] == Out && m.ring.threads[u] == R.Idle)
    && m.owner == (if pc.Locked? then t else -1) && m.early == map[] && m.list == b.list && Queues(m.ring, b.ring)
    && WellFormed(b) && (forall x | x in b.list :: 0 < x)
    && (forall x :: x in m.unlocked <==> x in b.list && x !in b.ring && x !in held)
    && (forall x | x in held :: x in b.list && x !in b.ring)
  }

  /** Nobody is at work, and the list and the ring are those of `b`. */
  ghost predicate AtRest(m: Machine, b: Buffered<int>) {
    && Sized(m) && (forall u | 0 <= u < |m.pcs| :: m.pcs[u] == Out && m.ring.threads[u] == R.Idle)
    && m.owner == -1 && m.early == map[] && m.list == b.list && Queues(m.ring, b.ring)
    && WellFormed(b) && (forall x | x in b.list :: 0 < x)
    && (forall x :: x in m.unlocked <==> x in b.list && x !in b.ring)
  }

  /** In `n` steps of its own, thread `t` finishes its operation, and leaves `b` behind. */
  ghost predicate Finishes(m: Machine, t: nat, b: Buffered<int>, n: nat)
    decreases n
  {
    if n == 0 then AtRest(m, b)
    else Sized(m) && t < |m.pcs| && m.pcs[t] != Out && Finishes(Step(m, t, GoOn), t, b, n - 1)
  }

  lemma OneStep(m: Machine, t: nat, b: Buffered<int>, n: nat)
    requires Sized(m) && t < |m.pcs| && m.pcs[t] != Out && Finishes(Step(m, t, GoOn), t, b, n)
    ensures Finishes(m, t, b, n + 1)
  {
  }

  lemma NoStep(m: Machine, t: nat, b: Buffered<int>)
    requires Lone(m, t, Out, b, {})
    ensures Finishes(m, t, b, 0)
  {
  }

  // ---------- a use

  /** The rest of an enqueue, seen from the machine. */
  lemma FinishEnqueue(m: Machine, t: nat, b: Buffered<int>, e: int) returns (n: nat)
    requires Lone(m, t, UseHeld(e), b, {e}) && |b.ring| < |m.ring.slots|
    ensures Finishes(m, t, b.(ring := b.ring + [e]), n)
  {
    hide Finishes, Queues, WellFormed, R.Apply;
    QueueSize(m.ring, b.ring);
    EnqueueRun(m.ring, t, b.ring, e);
    var m1 := Step(m, t, GoOn);
    var m2 := Step(m1, t, GoOn);
    var m3 := Step(m2, t, GoOn);
    var m4 := Step(m3, t, GoOn);
    RingShape(b, e);
    assert Lone(m4, t, Out, b.(ring := b.ring + [e]), {});
    NoStep(m4, t, b.(ring := b.ring + [e]));
    OneStep(m3, t, b.(ring := b.ring + [e]), 0);
    OneStep(m2, t, b.(ring := b.ring + [e]), 1);
    OneStep(m1, t, b.(ring := b.ring + [e]), 2);
    OneStep(m, t, b.(ring := b.ring + [e]), 3);
    n := 4;
  }

  lemma QueueSize(c: R.Ring, q: seq<int>)
    requires Queues(c, q)
    ensures |q| <= |c.slots| && c.nfree == |c.slots| - |q| && c.nused == |q|
  {
  }

  lemma RingShape(b: Buffered<int>, e: int)
    requires WellFormed(b) && e in b.list && e !in b.ring
    ensures WellFormed(b.(ring := b.ring + [e]))
  {
  }

  // ---------- a flush

  /** What a flush leaves to do: a user enqueues, an evictor tries again. */
  function Then(job: Job, b: Buffered<int>): Buffered<int> {
    match job
    case Refill(e) => b.(ring := [e])
    case EvictOldest => if b.list == [] then b else b.(list := b.list[1..])
    case EvictGiven(e) => b.(list := Without(b.list, e))
  }

  function Holds(job: Job): set<int> {
    if job.Refill? then {job.e} else {}
  }

  /** After the flush. */
  lemma FinishFlushed(m: Machine, t: nat, b: Buffered<int>, job: Job) returns (n: nat)
    requires Sized(m) && t < |m.pcs|
    requires if job.Refill? then Lone(m, t, UseHeld(job.e), b, {job.e}) else Lone(m, t, Locked(job, Second), b, {})
    requires b.ring == [] && b.list != []
    ensures Finishes(m, t, Then(job, b), n)
  {
    hide Finishes, Queues, WellFormed;
    if job.Refill? {
      assert [] + [job.e] == [job.e];
      n := FinishEnqueue(m, t, b, job.e);
    } else {
      n := FinishSecond(m, t, b, job);
    }
  }

  lemma FinishFound(m: Machine, t: nat, b: Buffered<int>, job: Job, x: int) returns (n: nat)
    requires Lone(m, t, Locked(job, Found(x)), b, {x})
    ensures Finishes(m, t, b.(list := Without(b.list, x)), n)
  {
    hide Finishes, Queues;
    var c := b.(list := Without(b.list, x));
    WithoutMembers(b.list, x);
    var k := Step(m, t, GoOn);
    assert Lone(k, t, Out, c, {});
    NoStep(k, t, c);
    OneStep(m, t, c, 0);
    n := 1;
  }

  lemma FinishSecond(m: Machine, t: nat, b: Buffered<int>, job: Job) returns (n: nat)
    requires Lone(m, t, Locked(job, Second), b, {}) && b.ring == [] && b.list != [] && !job.Refill?
    ensures Finishes(m, t, Then(job, b), n)
  {
    hide Finishes, Queues, WellFormed;
    assert b.list[0] in b.list;
    var m1 := Step(m, t, GoOn);
    var x := Target(m, job);
    var m2 := Step(m1, t, GoOn);
    if x in b.list {
      assert Lone(m2, t, Locked(job, Found(x)), b, {x});
      n := FinishFound(m2, t, b, job, x);
      if job.EvictOldest? { FirstOut(b); }
    } else {
      NotThere(b, job);
      assert Lone(m2, t, Out, b, {});
      NoStep(m2, t, b);
      n := 0;
    }
    OneStep(m1, t, Then(job, b), n);
    OneStep(m, t, Then(job, b), n + 1);
    n := n + 2;
  }

  lemma FirstOut(b: Buffered<int>)
    requires WellFormed(b) && b.list != []
    ensures Without(b.list, b.list[0]) == b.list[1..]
  {
  }

  lemma NotThere(b: Buffered<int>, job: Job)
    requires job.EvictGiven? && job.e !in b.list
    ensures Then(job, b) == b
  {
    WithoutAbsent(b.list, job.e);
  }

  function Moved(b: Buffered<int>): Buffered<int>
    requires b.ring != []
  {
    Buffered(Without(b.list, b.ring[0]) + [b.ring[0]], b.ring[1..])
  }

  /** Whatever `k` finishes with, `m` does after `d` steps more. */
  ghost predicate LeadsTo(m: Machine, k: Machine, t: nat, d: nat) {
    forall b: Buffered<int>, n: nat :: Finishes(k, t, b, n) ==> Finishes(m, t, b, n + d)
  }

  lemma Leads(m: Machine, k: Machine, t: nat)
    requires Sized(m) && t < |m.pcs| && m.pcs[t] != Out && k == Step(m, t, GoOn)
    ensures LeadsTo(m, k, t, 1)
  {
    hide Step, Finishes;
    forall b: Buffered<int>, n: nat | Finishes(k, t, b, n) ensures Finishes(m, t, b, n + 1) { OneStep(m, t, b, n); }
  }

  lemma LeadsOn(m: Machine, k: Machine, l: Machine, t: nat, c: nat, d: nat)
    requires LeadsTo(m, k, t, c) && LeadsTo(k, l, t, d)
    ensures LeadsTo(m, l, t, c + d)
  {
    hide Finishes;
    forall b: Buffered<int>, n: nat | Finishes(l, t, b, n) ensures Finishes(m, t, b, n + (c + d)) {
      assert Finishes(k, t, b, n + d);
      assert n + d + c == n + (c + d);
    }
  }

  /** Taking the oldest entry out of the ring. */
  lemma FlushTakes(m: Machine, t: nat, b: Buffered<int>, job: Job, i: nat) returns (k: Machine)
    requires Lone(m, t, Locked(job, Flush(i)), b, Holds(job)) && b.ring != []
    ensures Sized(k) && k == m.(ring := k.ring, pcs := m.pcs[t := Locked(job, Move(i, b.ring[0]))])
    ensures k.ring.threads == m.ring.threads && |k.ring.slots| == |m.ring.slots| && Queues(k.ring, b.ring[1..])
    ensures LeadsTo(m, k, t, 5)
  {
    hide Finishes, Queues, WellFormed, R.Apply, LeadsTo;
    QueueSize(m.ring, b.ring);
    DequeueRun(m.ring, t, b.ring);
    var m1 := Step(m, t, GoOn);
    var m2 := Step(m1, t, GoOn);
    var m3 := Step(m2, t, GoOn);
    var m4 := Step(m3, t, GoOn);
    k := Step(m4, t, GoOn);
    Leads(m, m1, t);
    Leads(m1, m2, t);
    Leads(m2, m3, t);
    Leads(m3, m4, t);
    Leads(m4, k, t);
    LeadsOn(m, m1, m2, t, 1, 1);
    LeadsOn(m, m2, m3, t, 2, 1);
    LeadsOn(m, m3, m4, t, 3, 1);
    LeadsOn(m, m4, k, t, 4, 1);
  }

  lemma MoveStep(k: Machine, t: nat, job: Job, i: nat, c: int)
    requires Sized(k) && t < |k.pcs| && k.pcs[t] == Locked(job, Move(i, c)) && c in k.list
    ensures Step(k, t, GoOn) == k.(list := Without(k.list, c) + [c], pcs := k.pcs[t := Locked(job, Unlock(i, c))])
  {
    hide Without, RingGo, NextOf;
  }

  lemma UnlockStep(k: Machine, t: nat, job: Job, i: nat, c: int)
    requires Sized(k) && t < |k.pcs| && k.pcs[t] == Locked(job, Unlock(i, c)) && k.owner == t
    ensures var more := i + 1 < |k.ring.slots|;
            var pc := if more then Locked(job, Flush(i + 1))
                      else if job.Refill? then UseHeld(job.e) else Locked(job, Second);
            Step(k, t, GoOn) == k.(unlocked := k.unlocked + {c}, owner := if pc.Locked? then t else -1,
                                   pcs := k.pcs[t := pc])
  {
    hide Without, RingGo, NextOf;
  }

  /** Moving it to the tail and unlocking it. */
  lemma FlushMoves(m: Machine, k: Machine, t: nat, b: Buffered<int>, job: Job, i: nat) returns (l: Machine)
    requires Lone(m, t, Locked(job, Flush(i)), b, Holds(job)) && b.ring != []
    requires Sized(k) && k == m.(ring := k.ring, pcs := m.pcs[t := Locked(job, Move(i, b.ring[0]))])
    requires k.ring.threads == m.ring.threads && |k.ring.slots| == |m.ring.slots| && Queues(k.ring, b.ring[1..])
    ensures LeadsTo(k, l, t, 2) && |l.ring.slots| == |m.ring.slots|
    ensures if i + 1 < |m.ring.slots| then Lone(l, t, Locked(job, Flush(i + 1)), Moved(b), Holds(job))
            else if job.Refill? then Lone(l, t, UseHeld(job.e), Moved(b), {job.e})
            else Lone(l, t, Locked(job, Second), Moved(b), {})
  {
    hide Finishes, Queues, LeadsTo, Order, Step;
    FlushOne(b);
    var c := b.ring[0];
    RingParts(b);
    WithoutMembers(b.list, c);
    hide WellFormed, Distinct;
    MoveStep(k, t, job, i, c);
    var k1 := Step(k, t, GoOn);
    UnlockStep(k1, t, job, i, c);
    l := Step(k1, t, GoOn);
    Leads(k, k1, t);
    Leads(k1, l, t);
    LeadsOn(k, k1, l, t, 1, 1);
  }

  lemma RingParts(b: Buffered<int>)
    requires WellFormed(b) && b.ring != []
    ensures b.ring[0] in b.ring && b.ring[0] !in b.ring[1..]
    ensures forall x :: x in b.ring <==> x == b.ring[0] || x in b.ring[1..]
  {
    assert b.ring == [b.ring[0]] + b.ring[1..];
  }

  /** The flush empties the ring, which never holds more than it has turns left. */
  lemma {:induction false} FinishFlush(m: Machine, t: nat, b: Buffered<int>, job: Job, i: nat) returns (n: nat)
    requires Lone(m, t, Locked(job, Flush(i)), b, Holds(job)) && i + |b.ring| <= |m.ring.slots| && b.list != []
    ensures Finishes(m, t, Then(job, FlushAll(b)), n)
    decreases |b.ring|
  {
    hide Finishes, Queues, LeadsTo, Minus, Then;
    QueueSize(m.ring, b.ring);
    if b.ring == [] {
      var k := Step(m, t, GoOn);
      MinusNothing(b.list);
      assert FlushAll(b) == b;
      n := FinishFlushed(k, t, b, job);
      OneStep(m, t, Then(job, b), n);
      n := n + 1;
    } else {
      var k := FlushTakes(m, t, b, job, i);
      var l := FlushMoves(m, k, t, b, job, i);
      FlushOne(b);
      assert FlushAll(Moved(b)) == FlushAll(b);
      if i + 1 < |m.ring.slots| {
        n := FinishFlush(l, t, Moved(b), job, i + 1);
      } else {
        MinusNothing(Moved(b).list);
        assert FlushAll(Moved(b)) == Moved(b);
        n := FinishFlushed(l, t, Moved(b), job);
      }
      LeadsOn(m, k, l, t, 5, 2);
      Led(m, l, t, 7, Then(job, FlushAll(b)), n);
      n := n + 7;
    }
  }

  lemma Led(m: Machine, k: Machine, t: nat, d: nat, b: Buffered<int>, n: nat)
    requires LeadsTo(m, k, t, d) && Finishes(k, t, b, n)
    ensures Finishes(m, t, b, n + d)
  {
  }

  // ---------- the operations

  /** What an operation does to the list and the ring of the serial LRU. */
  function Effect(b: Buffered<int>, act: Act, len: nat): Buffered<int> {
    match act
    case Insert(e) => if 0 < e && e !in b.list then Add(b, e) else b
    case Use(e) => if e in b.list then Touch(b, e, len) else b
    case Evict => DropOldest(b)
    case EvictEntry(e) => if e in b.list then Drop(b, e) else FlushAll(b)
    case GoOn => b
  }

  lemma FinishUse(m: Machine, t: nat, b: Buffered<int>, e: int) returns (n: nat)
    requires Lone(m, t, UseRead(e), b, {}) && e in b.list && e !in b.ring
    ensures Finishes(m, t, Touch(b, e, |m.ring.slots|), n)
  {
    hide Finishes, Queues, WellFormed, Minus;
    QueueSize(m.ring, b.ring);
    var m1 := Step(m, t, GoOn);
    assert Lone(m1, t, UseHeld(e), b, {e});
    if |b.ring| < |m.ring.slots| {
      n := FinishEnqueue(m1, t, b, e);
    } else {
      var m2 := Step(m1, t, GoOn);
      var m3 := Step(m2, t, GoOn);
      assert Lone(m3, t, Locked(Refill(e), Flush(0)), b, {e});
      n := FinishFlush(m3, t, b, Refill(e), 0);
      OneStep(m2, t, Then(Refill(e), FlushAll(b)), n);
      OneStep(m1, t, Then(Refill(e), FlushAll(b)), n + 1);
      n := n + 2;
    }
    OneStep(m, t, Touch(b, e, |m.ring.slots|), n);
    n := n + 1;
  }

  lemma FinishLink(m: Machine, t: nat, b: Buffered<int>, e: int) returns (n: nat)
    requires Sized(m) && t < |m.pcs| && m.owner == -1 && m.pcs[t] == Linking(e) && m.early == map[e := t] && 0 < e
    requires e !in b.list
    requires AtRest(m.(early := map[], unlocked := m.unlocked - {e}, pcs := m.pcs[t := Out]), b) && e in m.unlocked
    ensures Finishes(m, t, Add(b, e), n)
  {
    hide Finishes, Queues;
    var k := Step(m, t, GoOn);
    assert m.early - {e} == map[];
    assert AtRest(k, Add(b, e)) by {
      var was := m.(early := map[], unlocked := m.unlocked - {e}, pcs := m.pcs[t := Out]);
      assert k.pcs == was.pcs && k.list == b.list + [e];
    }
    AtRestFinishes(k, t, Add(b, e));
    OneStep(m, t, Add(b, e), 0);
    n := 1;
  }

  lemma AtRestFinishes(m: Machine, t: nat, b: Buffered<int>)
    requires AtRest(m, b)
    ensures Finishes(m, t, b, 0)
  {
  }

  lemma FinishFirst(m: Machine, t: nat, b: Buffered<int>, job: Job) returns (n: nat)
    requires Lone(m, t, Locked(job, First), b, {}) && !job.Refill?
    ensures Finishes(m, t, if job.EvictOldest? then DropOldest(b) else Effect(b, EvictEntry(job.e), 0), n)
  {
    hide Finishes, Queues, Minus, WellFormed, Effect, DropOldest, FlushAll, Then;
    var last := if job.EvictOldest? then DropOldest(b) else Effect(b, EvictEntry(job.e), 0);
    QueueSize(m.ring, b.ring);
    var m1 := Step(m, t, GoOn);
    if b.list == [] {
      NothingThere(b, job);
      assert Lone(m1, t, Out, b, {});
      NoStep(m1, t, b);
      n := 0;
    } else {
      var x := Target(m, job);
      var m2 := Step(m1, t, GoOn);
      assert b.list[0] in b.list;
      if x in m.unlocked {
        assert Lone(m2, t, Locked(job, Found(x)), b, {x});
        n := FinishFound(m2, t, b, job, x);
        TakenAtOnce(b, job, x);
      } else {
        assert Lone(m2, t, Locked(job, Flush(0)), b, {});
        n := FinishFlush(m2, t, b, job, 0);
        FlushedFirst(b, job);
      }
      OneStep(m1, t, last, n);
      n := n + 1;
    }
    OneStep(m, t, last, n);
    n := n + 1;
  }

  lemma NothingThere(b: Buffered<int>, job: Job)
    requires WellFormed(b) && b.list == [] && !job.Refill?
    ensures (if job.EvictOldest? then DropOldest(b) else Effect(b, EvictEntry(job.e), 0)) == b
  {
    var x := if b.ring == [] then 0 else b.ring[0];
    assert (b.ring != [] ==> x in b.ring) && x !in b.list;
    MinusNothing(b.list);
  }

  lemma TakenAtOnce(b: Buffered<int>, job: Job, x: int)
    requires WellFormed(b) && b.list != [] && !job.Refill? && x in b.list && x !in b.ring
    requires if job.EvictOldest? then x == b.list[0] else x == job.e
    ensures (if job.EvictOldest? then DropOldest(b) else Effect(b, EvictEntry(job.e), 0)) == b.(list := Without(b.list, x))
  {
  }

  lemma FlushedFirst(b: Buffered<int>, job: Job)
    requires WellFormed(b) && b.list != [] && !job.Refill?
    requires if job.EvictOldest? then b.list[0] in b.ring else job.e !in b.list || job.e in b.ring
    ensures (if job.EvictOldest? then DropOldest(b) else Effect(b, EvictEntry(job.e), 0)) == Then(job, FlushAll(b))
  {
    hide Minus;
    if job.EvictGiven? && job.e !in b.list {
      OrderFacts(b);
      WithoutAbsent(Order(b), job.e);
    }
  }

  /** Any operation begun with nobody at work finishes, if its thread is left alone, with the effect of the serial one. */
  lemma Begins(m: Machine, t: nat, b: Buffered<int>, act: Act) returns (n: nat)
    requires AtRest(m, b) && t < |m.pcs|
    ensures Sized(m) && Finishes(Step(m, t, act), t, Effect(b, act, |m.ring.slots|), n)
  {
    hide Finishes, Queues, Minus;
    var k := Step(m, t, act);
    n := 0;
    match act {
      case Insert(e) =>
        if 0 < e && e !in b.list {
          assert k.(early := map[], unlocked := k.unlocked - {e}, pcs := k.pcs[t := Out]) == m;
          n := FinishLink(k, t, b, e);
        } else {
          AtRestFinishes(m, t, b);
        }
      case Use(e) =>
        if e in m.unlocked {
          n := FinishUse(k, t, b, e);
        } else {
          AtRestFinishes(m, t, b);
        }
      case Evict => n := FinishFirst(k, t, b, EvictOldest);
      case EvictEntry(e) => n := FinishFirst(k, t, b, EvictGiven(e));
      case GoOn => AtRestFinishes(m, t, b);
    }
  }

  // ---------- schedules that run operations one after the other

  /** A thread takes a step only while all others are outside. */
  predicate OneByOne(m: Machine, sched: Schedule)
    requires Sized(m) && Schedulable(m, sched)
    decreases |sched|
  {
    sched != [] ==>
      var t, act := sched[0].0, sched[0].1;
      assert Sized(Step(m, t, act)) by { OnlyOne(m, t, act); }
      && (forall u | 0 <= u < |m.pcs| && u != t :: m.pcs[u] == Out)
      && OneByOne(Step(m, t, act), sched[1..])
  }

  /** The operations, in the order in which they begin. */
  function Begun(m: Machine, sched: Schedule): seq<Act>
    requires Sized(m) && Schedulable(m, sched)
    decreases |sched|
  {
    if sched == [] then []
    else
      var t, act := sched[0].0, sched[0].1;
      assert Sized(Step(m, t, act)) by { OnlyOne(m, t, act); }
      (if m.pcs[t] == Out then [act] else []) + Begun(Step(m, t, act), sched[1..])
  }

  function Effects(b: Buffered<int>, ops: seq<Act>, len: nat): Buffered<int>
    decreases |ops|
  {
    if ops == [] then b else Effects(Effect(b, ops[0], len), ops[1..], len)
  }

  lemma InsideIgnores(m: Machine, t: nat, act: Act)
    requires Sized(m) && t < |m.pcs| && m.pcs[t] != Out
    ensures Step(m, t, act) == Step(m, t, GoOn)
  {
  }

  lemma {:induction false} SerialFrom(m: Machine, sched: Schedule, t: nat, b: Buffered<int>, n: nat) returns (u: nat,
                                      k: nat)
    requires Sized(m) && Schedulable(m, sched) && OneByOne(m, sched) && t < |m.pcs| && Finishes(m, t, b, n)
    ensures Finishes(Exec(m, sched), u, Effects(b, Begun(m, sched), |m.ring.slots|), k)
    decreases |sched|
  {
    hide Step, AtRest, Effect;
    if sched == [] {
      u, k := t, n;
    } else {
      var v, act := sched[0].0, sched[0].1;
      var next := Step(m, v, act);
      OnlyOne(m, v, act);
      if n == 0 {
        AllOutside(m, b);
        var d := Begins(m, v, b, act);
        u, k := SerialFrom(next, sched[1..], v, Effect(b, act, |m.ring.slots|), d);
        var rest := Begun(next, sched[1..]);
        assert ([act] + rest)[1..] == rest;
      } else {
        assert v == t;
        InsideIgnores(m, t, act);
        u, k := SerialFrom(next, sched[1..], t, b, n - 1);
        assert [] + Begun(next, sched[1..]) == Begun(next, sched[1..]);
      }
    }
  }

  lemma AllOutside(m: Machine, b: Buffered<int>)
    requires AtRest(m, b)
    ensures forall u | 0 <= u < |m.pcs| :: m.pcs[u] == Out
  {
  }

  /** Every schedule that runs its operations one after the other, on however many threads, ends, whenever nobody is at
      work, with the list and the ring of the serial LRU after the same operations. */
  lemma Serial(len: nat, nthreads: nat, sched: Schedule)
    requires 0 < len && Schedulable(Start(len, nthreads), sched) && OneByOne(Start(len, nthreads), sched)
    ensures var k := Exec(Start(len, nthreads), sched);
            (forall u | 0 <= u < |k.pcs| :: k.pcs[u] == Out) ==>
              AtRest(k, Effects(Buffered([], []), Begun(Start(len, nthreads), sched), len))
  {
    var m, none := Start(len, nthreads), Buffered([], []);
    StartsAtRest(len, nthreads);
    if nthreads > 0 {
      hide AtRest, Step, Effects, Begun, Exec, OneByOne;
      var u, n := SerialFrom(m, sched, 0, none, 0);
      assert n == 0 || Exec(m, sched).pcs[u] != Out;
    }
  }

  lemma StartsAtRest(len: nat, nthreads: nat)
    requires 0 < len
    ensures AtRest(Start(len, nthreads), Buffered([], []))
  {
  }
}
