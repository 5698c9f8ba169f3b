/** The concurrent cache with its calls run one after the other: every call does what the serial one does. */
module CacheSerial {
  import opened Sequences
  import opened LruSpec
  import opened CacheProtocol
  import E = EntryLifetime
  import L = LruProtocol
  import S = LruSerial

  /** The recency list and the ring of the live entries, and the number of the next one. */
  datatype Serial = Serial(lru: Buffered<int>, next: int)

  /** Nobody is at work; live are exactly the listed entries, with the index's and the list's reference. */
  ghost predicate Rest(m: E.System, s: Serial) {
    && (forall t | 0 <= t < |m.pcs| :: m.pcs[t] == E.Out)
    && (forall e :: e in m.indexed <==> e in s.lru.list) && (forall e :: e in m.listed <==> e in s.lru.list)
    && (forall e :: e in m.refcount <==> e in s.lru.list) && (forall e | e in m.refcount :: m.refcount[e] == 2)
    && (forall e | e in m.evicting :: e !in s.lru.list && e < s.next) && m.orphans == {}
    && m.nextId == s.next && 0 < s.next && (forall e | e in s.lru.list :: e < s.next)
  }

  ghost predicate AtRest(j: Joint, s: Serial) {
    Sized(j) && Rest(j.life, s) && S.AtRest(j.lru, s.lru)
  }

  /** The thread has no choice: what it is asked to do does not matter. */
  predicate Driven(j: Joint, t: nat)
    requires t < |j.life.pcs| && t < |j.lru.pcs|
  {
    !j.lru.pcs[t].Out? || (!j.life.pcs[t].Out? && !j.life.pcs[t].Holding?)
  }

  lemma DrivenIgnores(j: Joint, t: nat, act: Act)
    requires Sized(j) && t < |j.life.pcs| && Driven(j, t)
    ensures Step(j, t, act) == Step(j, t, GoOn)
  {
  }

  /** In `n` steps of its own, thread `t` finishes its call, and leaves `s` behind. */
  ghost predicate Finishes(j: Joint, t: nat, s: Serial, n: nat)
    decreases n
  {
    if n == 0 then AtRest(j, s)
    else Sized(j) && t < |j.life.pcs| && Driven(j, t) && Finishes(Step(j, t, GoOn), t, s, n - 1)
  }

  lemma OneStep(j: Joint, t: nat, s: Serial, n: nat)
    requires Sized(j) && t < |j.life.pcs| && Driven(j, t) && Finishes(Step(j, t, GoOn), t, s, n)
    ensures Finishes(j, t, s, n + 1)
  {
  }

  lemma NoStep(j: Joint, t: nat, s: Serial)
    requires AtRest(j, s)
    ensures Finishes(j, t, s, 0)
  {
  }

  // ---------- the end of an eviction

  /** Only thread `t` is at work, at `pc`, with entry `x`, which has these references left; the list is that of `s`. */
  ghost predicate Removes(m: E.System, t: nat, pc: E.Pc, s: Serial, x: int, refs: int) {
    && t < |m.pcs| && m.pcs[t] == pc && (forall u | 0 <= u < |m.pcs| && u != t :: m.pcs[u] == E.Out)
    && x !in s.lru.list && x < s.next
    && (forall e :: e in m.indexed <==> e in s.lru.list || (e == x && !pc.Dropping?))
    && (forall e :: e in m.listed <==> e in s.lru.list)
    && (forall e :: e in m.refcount <==> e in s.lru.list || e == x)
    && (forall e | e in m.refcount :: m.refcount[e] == if e == x then refs else 2)
    && (forall e | e in m.evicting :: e !in s.lru.list && e < s.next) && m.orphans == {}
    && m.nextId == s.next && 0 < s.next && (forall e | e in s.lru.list :: e < s.next)
  }

  lemma FinishDropping(j: Joint, t: nat, s: Serial, x: int) returns (n: nat)
    requires Sized(j) && Removes(j.life, t, E.Dropping(x), s, x, 1) && S.AtRest(j.lru, s.lru)
    ensures Finishes(j, t, s, n)
  {
    hide Finishes, S.Queues, WellFormed;
    var k := Step(j, t, GoOn);
    assert AtRest(k, s);
    NoStep(k, t, s);
    OneStep(j, t, s, 0);
    n := 1;
  }

  lemma FinishRemoving(j: Joint, t: nat, s: Serial, x: int) returns (n: nat)
    requires Sized(j) && Removes(j.life, t, E.Removing(x), s, x, 1) && S.AtRest(j.lru, s.lru)
    ensures Finishes(j, t, s, n)
  {
    hide Finishes, S.Queues, WellFormed;
    var k := Step(j, t, GoOn);
    n := FinishDropping(k, t, s, x);
    OneStep(j, t, s, n);
    n := n + 1;
  }

  lemma FinishWon(j: Joint, t: nat, s: Serial, x: int) returns (n: nat)
    requires Sized(j) && Removes(j.life, t, E.Won(x), s, x, 2) && S.AtRest(j.lru, s.lru)
    ensures Finishes(j, t, s, n)
  {
    hide Finishes, S.Queues, WellFormed;
    var k := Step(j, t, GoOn);
    n := FinishRemoving(k, t, s, x);
    OneStep(j, t, s, n);
    n := n + 1;
  }

  lemma FinishKeyPopped(j: Joint, t: nat, s: Serial, x: int) returns (n: nat)
    requires Sized(j) && Removes(j.life, t, E.KeyPopped(x), s, x, 3) && S.AtRest(j.lru, s.lru)
    ensures Finishes(j, t, s, n)
  {
    hide Finishes, S.Queues, WellFormed;
    var k := Step(j, t, GoOn);
    n := FinishWon(k, t, s, x);
    OneStep(j, t, s, n);
    n := n + 1;
  }

  lemma FinishPopped(j: Joint, t: nat, s: Serial, x: int) returns (n: nat)
    requires Sized(j) && Removes(j.life, t, E.Popped(x), s, x, 2) && x !in j.life.evicting && S.AtRest(j.lru, s.lru)
    ensures Finishes(j, t, s, n)
  {
    hide Finishes, S.Queues, WellFormed;
    var k := Step(j, t, GoOn);
    n := FinishWon(k, t, s, x);
    OneStep(j, t, s, n);
    n := n + 1;
  }

  // ---------- an eviction of the oldest entry

  ghost predicate SameMembers(a: seq<int>, b: seq<int>) {
    forall x :: x in a <==> x in b
  }

  /** The LRU hands out the entry, or finds none. */
  lemma FinishEvicted(j: Joint, t: nat, s: Serial) returns (n: nat)
    requires Inv(j) && t < |j.life.pcs| && Rest(j.life, s) && WellFormed(s.lru) && SameMembers(j.lru.list, s.lru.list)
    requires j.lru.pcs[t].Locked? && j.lru.pcs[t].job == L.EvictOldest && L.Step(j.lru, t, L.GoOn).pcs[t].Out?
    requires S.AtRest(L.Step(j.lru, t, L.GoOn), DropOldest(s.lru))
    ensures Finishes(j, t, Serial(DropOldest(s.lru), s.next), n)
  {
    hide Finishes, S.Queues, L.Step, Minus, E.Inv, L.Inv, DropOldest;
    var u := Serial(DropOldest(s.lru), s.next);
    var k := Step(j, t, GoOn);
    StepSized(j, t, GoOn);
    LruGoesOn(j.lru, t);
    TakesOldest(s.lru);
    var oldest := if s.lru.list == [] then 0 else Order(s.lru)[0];
    assert s.lru.list != [] ==> oldest in s.lru.list && oldest !in u.lru.list;
    var pc := j.lru.pcs[t];
    if pc.stage.Found? {
      FoundIsGiven(j.lru, t);
      var x := pc.stage.x;
      hide WellFormed, S.AtRest;
      RestHas(k.lru, u.lru);
      assert s.lru.list != [] && x == Order(s.lru)[0];
      assert Removes(k.life, t, E.Popped(x), u, x, 2);
      n := FinishPopped(k, t, u, x);
    } else {
      RestHas(k.lru, u.lru);
      assert oldest in k.lru.list <==> oldest in j.lru.list;
      assert s.lru.list == [];
      assert AtRest(k, u);
      NoStep(k, t, u);
      n := 0;
    }
    OneStep(j, t, u, n);
    n := n + 1;
  }

  lemma RestHas(m: L.Machine, b: Buffered<int>)
    requires S.AtRest(m, b)
    ensures m.list == b.list
  {
  }

  lemma TakesOldest(b: Buffered<int>)
    requires WellFormed(b)
    ensures b.list == [] ==> DropOldest(b) == b
    ensures b.list != [] ==>
              && Order(b) != [] && Order(b)[0] in b.list
              && (forall y :: y in DropOldest(b).list <==> y in b.list && y != Order(b)[0])
  {
    hide Minus, Oldest;
    if b.list != [] {
      DropOldestKeeps(b);
      OrderFacts(b);
      assert Order(b)[0] in Order(b);
    }
  }

  lemma {:induction false} FinishEvictAny(j: Joint, t: nat, s: Serial, d: nat) returns (n: nat)
    requires Inv(j) && t < |j.life.pcs| && Rest(j.life, s) && WellFormed(s.lru) && SameMembers(j.lru.list, s.lru.list)
    requires j.lru.pcs[t].Locked? && j.lru.pcs[t].job == L.EvictOldest && 0 < d
    requires S.Finishes(j.lru, t, DropOldest(s.lru), d)
    ensures Finishes(j, t, Serial(DropOldest(s.lru), s.next), n)
    decreases d
  {
    hide Finishes, L.Step, Minus, E.Inv, L.Inv, DropOldest, WellFormed, S.AtRest;
    var m := L.Step(j.lru, t, L.GoOn);
    LruGoesOn(j.lru, t);
    if m.pcs[t].Out? {
      Ends(m, t, DropOldest(s.lru), d - 1);
      n := FinishEvicted(j, t, s);
    } else {
      StepInv(j, t, GoOn);
      StepSized(j, t, GoOn);
      NotYet(m, t, DropOldest(s.lru), d - 1);
      n := FinishEvictAny(Step(j, t, GoOn), t, s, d - 1);
      OneStep(j, t, Serial(DropOldest(s.lru), s.next), n);
      n := n + 1;
    }
  }

  lemma Ends(m: L.Machine, t: nat, b: Buffered<int>, d: nat)
    requires S.Finishes(m, t, b, d) && t < |m.pcs| && m.pcs[t].Out?
    ensures d == 0 && S.AtRest(m, b)
  {
  }

  lemma NotYet(m: L.Machine, t: nat, b: Buffered<int>, d: nat)
    requires S.Finishes(m, t, b, d) && t < |m.pcs| && !m.pcs[t].Out?
    ensures 0 < d
  {
  }

  // ---------- a thread with an entry of its own

  /** Only thread `t` is at work, with a third reference to the live entry `e`. */
  ghost predicate Keeps(m: E.System, t: nat, pc: E.Pc, s: Serial, e: int) {
    && t < |m.pcs| && m.pcs[t] == pc && (forall u | 0 <= u < |m.pcs| && u != t :: m.pcs[u] == E.Out) && e in s.lru.list
    && (forall x :: x in m.indexed <==> x in s.lru.list) && (forall x :: x in m.listed <==> x in s.lru.list)
    && (forall x :: x in m.refcount <==> x in s.lru.list)
    && (forall x | x in m.refcount :: m.refcount[x] == if x == e then 3 else 2)
    && (forall x | x in m.evicting :: (x !in s.lru.list || (x == e && pc.KeyWon?)) && x < s.next) && m.orphans == {}
    && m.nextId == s.next && 0 < s.next && (forall x | x in s.lru.list :: x < s.next)
  }

  lemma FinishTaken(j: Joint, t: nat, s: Serial, e: int) returns (n: nat)
    requires Inv(j) && t < |j.life.pcs| && Keeps(j.life, t, E.KeyWon(e), s, e) && WellFormed(s.lru)
    requires SameMembers(j.lru.list, s.lru.list)
    requires j.lru.pcs[t].Locked? && j.lru.pcs[t].job == L.EvictGiven(e) && L.Step(j.lru, t, L.GoOn).pcs[t].Out?
    requires S.AtRest(L.Step(j.lru, t, L.GoOn), Drop(s.lru, e))
    ensures Finishes(j, t, Serial(Drop(s.lru, e), s.next), n)
  {
    hide Finishes, S.Queues, L.Step, Minus, E.Inv, L.Inv, Drop;
    var u := Serial(Drop(s.lru, e), s.next);
    var k := Step(j, t, GoOn);
    StepSized(j, t, GoOn);
    LruGoesOn(j.lru, t);
    DropKeeps(s.lru, e);
    RestHas(k.lru, u.lru);
    hide WellFormed, S.AtRest;
    assert j.lru.pcs[t].stage.Found?;
    FoundIsGiven(j.lru, t);
    assert Removes(k.life, t, E.KeyPopped(e), u, e, 3);
    n := FinishKeyPopped(k, t, u, e);
    OneStep(j, t, u, n);
    n := n + 1;
  }

  lemma {:induction false} FinishEvictKey(j: Joint, t: nat, s: Serial, e: int, d: nat) returns (n: nat)
    requires Inv(j) && t < |j.life.pcs| && Keeps(j.life, t, E.KeyWon(e), s, e) && WellFormed(s.lru)
    requires SameMembers(j.lru.list, s.lru.list)
    requires j.lru.pcs[t].Locked? && j.lru.pcs[t].job == L.EvictGiven(e) && 0 < d
    requires S.Finishes(j.lru, t, Drop(s.lru, e), d)
    ensures Finishes(j, t, Serial(Drop(s.lru, e), s.next), n)
    decreases d
  {
    hide Finishes, L.Step, Minus, E.Inv, L.Inv, Drop, WellFormed, S.AtRest;
    var m := L.Step(j.lru, t, L.GoOn);
    LruGoesOn(j.lru, t);
    if m.pcs[t].Out? {
      Ends(m, t, Drop(s.lru, e), d - 1);
      n := FinishTaken(j, t, s, e);
    } else {
      StepInv(j, t, GoOn);
      StepSized(j, t, GoOn);
      NotYet(m, t, Drop(s.lru, e), d - 1);
      n := FinishEvictKey(Step(j, t, GoOn), t, s, e, d - 1);
      OneStep(j, t, Serial(Drop(s.lru, e), s.next), n);
      n := n + 1;
    }
  }

  // ---------- the calls

  datatype Call = PutCall | UseCall(e: int) | EvictCall | EvictKeyCall(e: int)

  /** What a call does to the serial cache. */
  function Effect(s: Serial, call: Call, len: nat): Serial {
    match call
    case PutCall => Serial(Add(s.lru, s.next), s.next + 1)
    case UseCall(e) => s.(lru := Touch(s.lru, e, len))
    case EvictCall => s.(lru := DropOldest(s.lru))
    case EvictKeyCall(e) => if e in s.lru.list then s.(lru := Drop(s.lru, e)) else s
  }

  /** The call that a step begins, if any. Getting an entry begins none yet; using it does. */
  function CallOf(j: Joint, t: nat, act: Act): seq<Call>
    requires t < |j.life.pcs| && t < |j.lru.pcs|
  {
    if !j.lru.pcs[t].Out? then []
    else if j.life.pcs[t].Holding? then (if act == Use then [UseCall(j.life.pcs[t].e)] else [])
    else if !j.life.pcs[t].Out? then []
    else match act
      case Put => [PutCall]
      case EvictAny => [EvictCall]
      case EvictKey(e) => [EvictKeyCall(e)]
      case _ => []
  }

  function Effects(s: Serial, calls: seq<Call>, len: nat): Serial
    decreases |calls|
  {
    if calls == [] then s else Effects(Effect(s, calls[0], len), calls[1..], len)
  }

  /** Thread `t` is at rest with all others, or holds an entry and may choose, or is driven towards `s`. */
  datatype Where = Resting | Choosing(e: int) | Using(e: int, d: nat) | Going(n: nat)

  ghost predicate On(j: Joint, t: nat, s: Serial, w: Where) {
    && Inv(j) && t < |j.life.pcs|
    && match w
       case Resting => AtRest(j, s)
       case Choosing(e) => Keeps(j.life, t, E.Holding(e), s, e) && S.AtRest(j.lru, s.lru)
       case Using(e, d) => Keeps(j.life, t, E.Holding(e), s, e) && 0 < d && S.Finishes(j.lru, t, s.lru, d)
       case Going(n) => 0 < n && Finishes(j, t, s, n)
  }

  lemma ToGoing(j: Joint, t: nat, s: Serial, n: nat) returns (w: Where)
    requires Inv(j) && t < |j.life.pcs| && Finishes(j, t, s, n)
    ensures On(j, t, s, w)
  {
    hide Inv;
    w := if n == 0 then Resting else Going(n);
  }

  lemma PutLife(m: E.System, t: nat, s: Serial)
    requires Rest(m, s) && t < |m.pcs|
    ensures var k := E.Step(m, t, E.Put);
            && |k.pcs| == |m.pcs| && k.pcs[t] == E.PutLink(s.next) && Rest(E.Step(k, t, E.GoOn), Effect(s, PutCall, 0))
  {
  }

  lemma BeginPut(j: Joint, t: nat, s: Serial) returns (w: Where)
    requires On(j, t, s, Resting)
    ensures On(Step(j, t, Put), t, Effect(s, PutCall, 0), w)
  {
    hide Finishes, Inv, S.Queues, S.Finishes, S.AtRest, L.Step, E.Step, Rest;
    InvFacts(j);
    PutFits(j, t, s);
    StepInv(j, t, Put);
    var k, u, e := Step(j, t, Put), Effect(s, PutCall, 0), s.next;
    InvFacts(k);
    StepSized(k, t, GoOn);
    var l := Step(k, t, GoOn);
    var d := S.Begins(j.lru, t, s.lru, L.Insert(e));
    Inserting(j.lru, t, s.lru, e, d);
    StepSized(l, t, GoOn);
    NoStep(Step(l, t, GoOn), t, u);
    OneStep(l, t, u, 0);
    OneStep(k, t, u, 1);
    w := ToGoing(k, t, u, 2);
  }

  lemma PutFits(j: Joint, t: nat, s: Serial)
    requires AtRest(j, s) && t < |j.life.pcs|
    ensures 0 < s.next && s.next !in s.lru.list && j.life.pcs[t] == E.Out && j.lru.pcs[t] == L.Out
    ensures var k := E.Step(j.life, t, E.Put);
            && |k.pcs| == |j.life.pcs| && k.pcs[t] == E.PutLink(s.next)
            && Rest(E.Step(k, t, E.GoOn), Effect(s, PutCall, 0))
  {
    PutLife(j.life, t, s);
  }

  lemma Inserting(m: L.Machine, t: nat, b: Buffered<int>, e: int, d: nat)
    requires S.AtRest(m, b) && t < |m.pcs| && 0 < e && e !in b.list
    requires L.Sized(m) && S.Finishes(L.Step(m, t, L.Insert(e)), t, Add(b, e), d)
    ensures var k := L.Step(m, t, L.Insert(e));
            && L.Sized(k) && t < |k.pcs| && k.pcs[t] == L.Linking(e) && k.owner == -1
            && S.AtRest(L.Step(k, t, L.GoOn), Add(b, e))
  {
    hide S.Queues, WellFormed;
    var k := L.Step(m, t, L.Insert(e));
    NotYet(k, t, Add(b, e), d);
    Ends(L.Step(k, t, L.GoOn), t, Add(b, e), d - 1);
  }

  lemma BeginGet(j: Joint, t: nat, s: Serial, e: int) returns (w: Where)
    requires On(j, t, s, Resting)
    ensures On(Step(j, t, Get(e)), t, s, w)
  {
    hide Finishes, Inv, S.Queues, WellFormed;
    InvFacts(j);
    StepInv(j, t, Get(e));
    w := if e in s.lru.list then Choosing(e) else Resting;
  }

  lemma BeginEvict(j: Joint, t: nat, s: Serial) returns (w: Where)
    requires On(j, t, s, Resting)
    ensures On(Step(j, t, EvictAny), t, Effect(s, EvictCall, 0), w)
  {
    hide Finishes, Inv, S.Queues, S.Finishes, DropOldest;
    InvFacts(j);
    StepInv(j, t, EvictAny);
    var k := Step(j, t, EvictAny);
    var d := S.Begins(j.lru, t, s.lru, L.Evict);
    NotYet(k.lru, t, DropOldest(s.lru), d);
    var n := FinishEvictAny(k, t, s, d);
    w := ToGoing(k, t, Effect(s, EvictCall, 0), n);
  }

  lemma KeyLife(m: E.System, t: nat, s: Serial, e: int)
    requires Rest(m, s) && t < |m.pcs| && e in s.lru.list
    ensures var k := E.Step(m, t, E.EvictKey(e));
            && |k.pcs| == |m.pcs| && k.pcs[t] == E.KeyGot(e) && Keeps(E.Step(k, t, E.GoOn), t, E.KeyWon(e), s, e)
  {
  }

  lemma RestFacts(j: Joint, t: nat, s: Serial)
    requires AtRest(j, s) && t < |j.life.pcs|
    ensures j.life.pcs[t] == E.Out && j.lru.pcs[t] == L.Out && j.lru.owner == -1 && j.lru.list == s.lru.list
    ensures WellFormed(s.lru)
    ensures forall e :: e in j.life.indexed <==> e in s.lru.list
  {
  }

  lemma BeginEvictKey(j: Joint, t: nat, s: Serial, e: int) returns (w: Where)
    requires On(j, t, s, Resting)
    ensures On(Step(j, t, EvictKey(e)), t, Effect(s, EvictKeyCall(e), 0), w)
  {
    hide Finishes, Inv, S.Queues, S.Finishes, S.AtRest, Drop, E.Step, Rest, Keeps, WellFormed;
    InvFacts(j);
    RestFacts(j, t, s);
    StepInv(j, t, EvictKey(e));
    if e in s.lru.list {
      KeyLife(j.life, t, s, e);
      w := TakeKey(j, Step(j, t, EvictKey(e)), t, s, e);
    } else {
      assert E.Step(j.life, t, E.EvictKey(e)) == j.life by { NotIndexed(j.life, t, e); }
      w := Resting;
    }
  }

  lemma NotIndexed(m: E.System, t: nat, e: int)
    requires t < |m.pcs| && m.pcs[t] == E.Out && e !in m.indexed
    ensures E.Step(m, t, E.EvictKey(e)) == m && E.Step(m, t, E.Get(e)) == m
  {
  }

  lemma KeepsAt(m: E.System, t: nat, pc: E.Pc, s: Serial, e: int)
    requires Keeps(m, t, pc, s, e)
    ensures t < |m.pcs| && m.pcs[t] == pc
  {
  }

  lemma LocksList(m: L.Machine, t: nat, e: int)
    requires L.Sized(m) && t < |m.pcs| && m.pcs[t] == L.Out && m.owner == -1
    ensures L.Step(m, t, L.EvictEntry(e)) == m.(owner := t, pcs := m.pcs[t := L.Locked(L.EvictGiven(e), L.First)])
  {
  }

  lemma GotStep(j: Joint, t: nat, e: int)
    requires Sized(j) && t < |j.life.pcs| && j.lru.pcs[t] == L.Out
    ensures j.life.pcs[t] == E.KeyGot(e) ==> Driven(j, t) && Step(j, t, GoOn) == j.(life := E.Step(j.life, t, E.GoOn))
    ensures j.life.pcs[t] == E.KeyWon(e) ==>
              Driven(j, t) && Step(j, t, GoOn) == j.(lru := L.Step(j.lru, t, L.EvictEntry(e)))
  {
  }

  lemma TakeKey(j: Joint, k: Joint, t: nat, s: Serial, e: int) returns (w: Where)
    requires Inv(k) && AtRest(j, s) && t < |j.life.pcs| && t < |k.life.pcs| && k.lru == j.lru && e in s.lru.list
    requires k.life.pcs[t] == E.KeyGot(e) && Keeps(E.Step(k.life, t, E.GoOn), t, E.KeyWon(e), s, e)
    ensures On(k, t, Effect(s, EvictKeyCall(e), 0), w)
  {
    hide Finishes, Inv, S.Finishes, S.AtRest, Drop, E.Step, L.Step, Rest, WellFormed, Keeps, Step, On, Driven;
    InvFacts(k);
    RestFacts(j, t, s);
    GotStep(k, t, e);
    StepInv(k, t, GoOn);
    var l := Step(k, t, GoOn);
    InvFacts(l);
    KeepsAt(l.life, t, E.KeyWon(e), s, e);
    GotStep(l, t, e);
    StepInv(l, t, GoOn);
    var m := Step(l, t, GoOn);
    LocksList(j.lru, t, e);
    var d := S.Begins(j.lru, t, s.lru, L.EvictEntry(e));
    NotYet(m.lru, t, Drop(s.lru, e), d);
    var n := FinishEvictKey(m, t, s, e, d);
    OneStep(l, t, Effect(s, EvictKeyCall(e), 0), n);
    OneStep(k, t, Effect(s, EvictKeyCall(e), 0), n + 1);
    w := ToGoing(k, t, Effect(s, EvictKeyCall(e), 0), n + 2);
  }

  lemma Letting(j: Joint, t: nat, s: Serial, e: int, act: Act)
    requires On(j, t, s, Choosing(e)) && act != Use
    ensures On(Step(j, t, act), t, s, Resting)
  {
    hide Inv, S.Queues;
    InvFacts(j);
    StepInv(j, t, act);
  }

  lemma KeepsTouched(m: E.System, t: nat, s: Serial, e: int, len: nat)
    requires Keeps(m, t, E.Holding(e), s, e) && WellFormed(s.lru)
    ensures Keeps(m, t, E.Holding(e), Effect(s, UseCall(e), len), e)
  {
    hide Touch, WellFormed;
    TouchKeeps(s.lru, e, len);
  }

  lemma UseCalls(j: Joint, t: nat, e: int)
    requires Sized(j) && t < |j.life.pcs| && j.life.pcs[t] == E.Holding(e) && j.lru.pcs[t].Out?
    ensures Step(j, t, Use) == j.(lru := L.Step(j.lru, t, L.Use(e)))
  {
  }

  lemma RestShape(m: L.Machine, b: Buffered<int>, t: nat)
    requires S.AtRest(m, b) && t < |m.pcs|
    ensures WellFormed(b) && m.pcs[t].Out?
  {
  }

  lemma UseBegins(j: Joint, t: nat, s: Serial, e: int) returns (w: Where)
    requires On(j, t, s, Choosing(e))
    ensures |j.lru.ring.slots| > 0 && On(Step(j, t, Use), t, Effect(s, UseCall(e), |j.lru.ring.slots|), w)
  {
    hide Inv, S.Finishes, S.AtRest, Touch, L.Step, Step, Keeps, WellFormed;
    InvFacts(j);
    var len := |j.lru.ring.slots|;
    KeepsAt(j.life, t, E.Holding(e), s, e);
    KeepsIn(j.life, t, s, e);
    RestShape(j.lru, s.lru, t);
    KeepsTouched(j.life, t, s, e, len);
    UseCalls(j, t, e);
    StepInv(j, t, Use);
    var d := S.Begins(j.lru, t, s.lru, L.Use(e));
    if d == 0 {
      Done(L.Step(j.lru, t, L.Use(e)), t, Effect(s, UseCall(e), len).lru);
      w := Choosing(e);
    } else {
      w := Using(e, d);
    }
  }

  lemma KeepsIn(m: E.System, t: nat, s: Serial, e: int)
    requires Keeps(m, t, E.Holding(e), s, e)
    ensures e in s.lru.list
  {
  }

  lemma Choose(j: Joint, t: nat, s: Serial, e: int, act: Act) returns (w: Where)
    requires On(j, t, s, Choosing(e))
    ensures |j.lru.ring.slots| > 0
    ensures On(Step(j, t, act), t, if act == Use then Effect(s, UseCall(e), |j.lru.ring.slots|) else s, w)
  {
    hide On, Step, Effect;
    if act == Use {
      w := UseBegins(j, t, s, e);
    } else {
      w := Resting;
      Letting(j, t, s, e, act);
      HasSlots(j, t, s, e);
    }
  }

  lemma HasSlots(j: Joint, t: nat, s: Serial, e: int)
    requires On(j, t, s, Choosing(e))
    ensures |j.lru.ring.slots| > 0
  {
    InvFacts(j);
  }

  lemma Done(m: L.Machine, t: nat, b: Buffered<int>)
    requires S.Finishes(m, t, b, 0)
    ensures S.AtRest(m, b)
  {
  }

  lemma OneLess(m: L.Machine, t: nat, b: Buffered<int>, d: nat)
    requires 0 < d && S.Finishes(m, t, b, d)
    ensures L.Sized(m) && t < |m.pcs| && m.pcs[t] != L.Out && S.Finishes(L.Step(m, t, L.GoOn), t, b, d - 1)
  {
  }

  lemma UseOn(j: Joint, t: nat, s: Serial, e: int, d: nat, act: Act) returns (w: Where)
    requires On(j, t, s, Using(e, d))
    ensures On(Step(j, t, act), t, s, w)
  {
    hide Finishes, Inv, L.Step, S.AtRest, S.Finishes, Step, Keeps;
    InvFacts(j);
    KeepsAt(j.life, t, E.Holding(e), s, e);
    InUse(j, t);
    OneLess(j.lru, t, s.lru, d);
    UseStep(j, t, act);
    StepInv(j, t, act);
    var m := L.Step(j.lru, t, L.GoOn);
    if m.pcs[t].Out? {
      Ends(m, t, s.lru, d - 1);
      w := Choosing(e);
    } else {
      NotYet(m, t, s.lru, d - 1);
      w := Using(e, d - 1);
    }
  }

  lemma UseStep(j: Joint, t: nat, act: Act)
    requires Sized(j) && t < |j.life.pcs| && j.life.pcs[t].Holding? && !j.lru.pcs[t].Linking? && !j.lru.pcs[t].Out?
    ensures Step(j, t, act) == j.(lru := L.Step(j.lru, t, L.GoOn))
  {
  }

  lemma InUse(j: Joint, t: nat)
    requires Inv(j) && t < |j.life.pcs| && j.life.pcs[t].Holding?
    ensures t < |j.lru.pcs| && !j.lru.pcs[t].Linking?
  {
    assert ErrandOk(j, t);
  }

  // ---------- schedules that run calls one after the other

  predicate Outside(j: Joint, t: nat)
    requires t < |j.life.pcs| && t < |j.lru.pcs|
  {
    j.life.pcs[t] == E.Out && j.lru.pcs[t] == L.Out
  }

  /** A thread takes a step only while all others are outside. */
  predicate OneByOne(j: Joint, sched: Schedule)
    requires Sized(j) && Schedulable(j, sched)
    decreases |sched|
  {
    sched != [] ==>
      var t, act := sched[0].0, sched[0].1;
      assert Sized(Step(j, t, act)) && |Step(j, t, act).life.pcs| == |j.life.pcs| by { StepSized(j, t, act); }
      && (forall u | 0 <= u < |j.life.pcs| && u != t :: Outside(j, u))
      && OneByOne(Step(j, t, act), sched[1..])
  }

  /** The calls, in the order in which they begin. */
  function Begun(j: Joint, sched: Schedule): seq<Call>
    requires Sized(j) && Schedulable(j, sched)
    decreases |sched|
  {
    if sched == [] then []
    else
      var t, act := sched[0].0, sched[0].1;
      assert Sized(Step(j, t, act)) && |Step(j, t, act).life.pcs| == |j.life.pcs| by { StepSized(j, t, act); }
      CallOf(j, t, act) + Begun(Step(j, t, act), sched[1..])
  }

  /** Where the busy thread is, it is not outside. */
  lemma BusyIsInside(j: Joint, t: nat, s: Serial, w: Where)
    requires On(j, t, s, w) && !w.Resting?
    ensures Sized(j) && !Outside(j, t)
  {
    InvFacts(j);
  }

  lemma NextRest(j: Joint, t: nat, s: Serial, act: Act) returns (w: Where)
    requires On(j, t, s, Resting)
    ensures Sized(j) && On(Step(j, t, act), t, Effects(s, CallOf(j, t, act), |j.lru.ring.slots|), w)
  {
    hide On, Step, Effect;
    RestingFacts(j, t, s);
    match act {
      case Put => w := BeginPut(j, t, s); OneCall(s, PutCall, |j.lru.ring.slots|);
      case Get(e) => w := BeginGet(j, t, s, e);
      case EvictAny => w := BeginEvict(j, t, s); OneCall(s, EvictCall, |j.lru.ring.slots|);
      case EvictKey(e) => w := BeginEvictKey(j, t, s, e); OneCall(s, EvictKeyCall(e), |j.lru.ring.slots|);
      case _ => w := Resting; Idles(j, t, s, act);
    }
  }

  lemma RestingFacts(j: Joint, t: nat, s: Serial)
    requires On(j, t, s, Resting)
    ensures Sized(j) && t < |j.life.pcs| && Outside(j, t)
  {
    RestFacts(j, t, s);
  }

  lemma Idles(j: Joint, t: nat, s: Serial, act: Act)
    requires On(j, t, s, Resting) && (act == Use || act == GoOn)
    ensures Sized(j) && On(Step(j, t, act), t, s, Resting)
  {
    RestFacts(j, t, s);
  }

  lemma OneCall(s: Serial, call: Call, len: nat)
    ensures Effects(s, [call], len) == Effect(s, call, len)
    ensures !call.UseCall? ==> Effect(s, call, len) == Effect(s, call, 0)
  {
    assert [call][1..] == [];
  }

  lemma NextBusy(j: Joint, t: nat, s: Serial, w: Where, act: Act) returns (v: Where)
    requires On(j, t, s, w) && !w.Resting?
    ensures Sized(j) && On(Step(j, t, act), t, Effects(s, CallOf(j, t, act), |j.lru.ring.slots|), v)
  {
    InvFacts(j);
    match w {
      case Choosing(e) =>
        hide Step, Effect, Inv;
        ChoosingFacts(j, t, s, e);
        v := Choose(j, t, s, e, act);
        OneCall(s, UseCall(e), |j.lru.ring.slots|);
      case Using(e, d) =>
        hide Step, Effect, Inv;
        UsingFacts(j, t, s, e, d);
        v := UseOn(j, t, s, e, d, act);
      case Going(n) => v := GoesOn(j, t, s, n, act);
    }
  }

  lemma ChoosingFacts(j: Joint, t: nat, s: Serial, e: int)
    requires On(j, t, s, Choosing(e))
    ensures t < |j.life.pcs| && t < |j.lru.pcs| && j.life.pcs[t] == E.Holding(e) && j.lru.pcs[t] == L.Out
  {
    InvFacts(j);
  }

  lemma UsingFacts(j: Joint, t: nat, s: Serial, e: int, d: nat)
    requires On(j, t, s, Using(e, d))
    ensures t < |j.lru.pcs| && j.lru.pcs[t] != L.Out
  {
  }

  lemma GoesOn(j: Joint, t: nat, s: Serial, n: nat, act: Act) returns (v: Where)
    requires On(j, t, s, Going(n))
    ensures Sized(j) && On(Step(j, t, act), t, Effects(s, CallOf(j, t, act), |j.lru.ring.slots|), v)
  {
    hide Step, Inv, AtRest;
    DrivenIgnores(j, t, act);
    StepInv(j, t, act);
    StepSized(j, t, act);
    v := ToGoing(Step(j, t, act), t, s, n - 1);
  }

  lemma {:induction false} SerialFrom(j: Joint, sched: Schedule, t: nat, s: Serial, w: Where) returns (u: nat, v: Where)
    requires Sized(j) && Schedulable(j, sched) && OneByOne(j, sched) && On(j, t, s, w)
    ensures On(Exec(j, sched), u, Effects(s, Begun(j, sched), |j.lru.ring.slots|), v)
    decreases |sched|
  {
    hide Step, On, Effect, CallOf;
    if sched == [] {
      u, v := t, w;
    } else {
      var x, act := sched[0].0, sched[0].1;
      var next;
      if w.Resting? {
        RestsFor(j, t, x, s);
        next := NextRest(j, x, s, act);
      } else {
        BusyIsInside(j, t, s, w);
        assert x == t by { InThreads(j, t, s, w); }
        next := NextBusy(j, t, s, w, act);
      }
      StepSized(j, x, act);
      SameSlots(j, x, act);
      var k := Step(j, x, act);
      u, v := SerialFrom(k, sched[1..], x, Effects(s, CallOf(j, x, act), |j.lru.ring.slots|), next);
      EffectsConcat(s, CallOf(j, x, act), Begun(k, sched[1..]), |j.lru.ring.slots|);
    }
  }

  lemma InThreads(j: Joint, t: nat, s: Serial, w: Where)
    requires On(j, t, s, w)
    ensures t < |j.life.pcs|
  {
  }

  lemma RestsFor(j: Joint, t: nat, x: nat, s: Serial)
    requires On(j, t, s, Resting) && x < |j.life.pcs|
    ensures On(j, x, s, Resting)
  {
  }

  lemma SameSlots(j: Joint, t: nat, act: Act)
    requires Sized(j) && t < |j.life.pcs|
    ensures |Step(j, t, act).lru.ring.slots| == |j.lru.ring.slots|
  {
    hide E.Step, L.Step;
    forall a ensures |L.Step(j.lru, t, a).ring.slots| == |j.lru.ring.slots| { L.OnlyOne(j.lru, t, a); }
  }

  lemma {:induction false} EffectsConcat(s: Serial, a: seq<Call>, b: seq<Call>, len: nat)
    ensures Effects(s, a + b, len) == Effects(Effects(s, a, len), b, len)
    decreases |a|
  {
    if a == [] {
      assert a + b == b;
    } else {
      assert (a + b)[1..] == a[1..] + b && (a + b)[0] == a[0];
      EffectsConcat(Effect(s, a[0], len), a[1..], b, len);
    }
  }

  /** Every schedule that runs its calls one after the other, on however many threads, ends, whenever nobody is at work,
      where the serial cache ends: with the same list and ring, and alive just the entries on the list. */
  lemma SerialRun(len: nat, nthreads: nat, sched: Schedule)
    requires 0 < len && Sized(Start(len, nthreads)) && Schedulable(Start(len, nthreads), sched)
    requires OneByOne(Start(len, nthreads), sched)
    ensures var k := Exec(Start(len, nthreads), sched);
            Sized(k) && (forall t | 0 <= t < |k.life.pcs| :: Outside(k, t)) ==>
              AtRest(k, Effects(Serial(Buffered([], []), 1), Begun(Start(len, nthreads), sched), len))
  {
    var j, none := Start(len, nthreads), Serial(Buffered([], []), 1);
    StartInv(len, nthreads);
    S.StartsAtRest(len, nthreads);
    assert AtRest(j, none);
    if nthreads > 0 {
      assert On(j, 0, none, Resting);
      hide Exec, Begun, OneByOne, Effects, Inv;
      var u, v := SerialFrom(j, sched, 0, none, Resting);
      var k := Exec(j, sched);
      if !v.Resting? { BusyIsInside(k, u, Effects(none, Begun(j, sched), len), v); }
    } else {
      assert sched == [];
    }
  }
}
