/** Whole runs of the cache: what any sequence of calls keeps, and that a hit returns what was put last. */
module CacheRuns {
  import opened Bytes
  import opened Sequences
  import opened LruSpec
  import opened CacheSpec
  import C = Cache
  import H = Heap
  import Y = HeapLayout
  import I = Index
  import K = CacheLinks
  import R = RingBuffer

  datatype Op =
    | PutOp(key: Key, value: seq<byte>)
    | GetOp(key: Key, hasBuf: bool, room: nat, offset: nat)
    | ExistsOp(key: Key)
    | EvictOp
    | EvictKeyOp(key: Key)

  datatype Result = Status(err: Error) | Answer(found: bool, out: seq<byte>, vsize: int)

  /** One call: the state before and after, the arguments and the result, and how many keys were evicted. */
  datatype Event = Event(before: State, op: Op, result: Result, after: State, evicted: nat)

  ghost predicate Allowed(size: nat, e: Event) {
    match e.op
    case PutOp(key, value) => e.result.Status? && Put(e.before, e.after, size, key, value, e.result.err, e.evicted)
    case GetOp(key, hasBuf, room, offset) =>
      && e.result.Answer? && e.evicted == 0
      && Get(e.before, e.after, key, hasBuf, room, offset, e.result.found, e.result.out, e.result.vsize)
    case ExistsOp(key) =>
      && e.result.Answer? && e.evicted == 0 && e.after == e.before && e.result.found == (key in e.before.content)
      && (e.result.found ==> e.result.vsize == |e.before.content[key]|)
    case EvictOp =>
      e.result.Status? && Evict(e.before, e.after, e.result.err) && e.evicted == OneIf(e.result.err == OK)
    case EvictKeyOp(key) =>
      e.result.Status? && EvictKey(e.before, e.after, key, e.result.err) && e.evicted == OneIf(e.result.err == OK)
  }

  /** A run: each call starts where the previous one ended. */
  ghost predicate Run(size: nat, start: State, run: seq<Event>) {
    && (forall i | 0 <= i < |run| :: Allowed(size, run[i]))
    && (forall i | 0 <= i < |run| :: run[i].before == Upto(start, run, i))
  }

  /** The state after the first `i` calls. */
  function Upto(start: State, run: seq<Event>, i: nat): State
    requires i <= |run|
  {
    if i == 0 then start else run[i - 1].after
  }

  const EMPTY := State(map[], Buffered([], []))

  ghost predicate PutsKey(e: Event, key: Key) {
    e.op.PutOp? && e.op.key == key && e.result == Status(OK)
  }

  // ---------- the list has the stored keys

  lemma AddKeepsShape(s: State, t: State, key: Key, value: seq<byte>)
    requires CacheSpec.WellFormed(s) && Adds(s, t, key, value)
    ensures CacheSpec.WellFormed(t) && |t.Order()| == |s.Order()| + 1
  {
    hide Minus;
    AddKeeps(s.lru, key);
  }

  lemma UseKeepsShape(s: State, t: State, key: Key)
    requires CacheSpec.WellFormed(s) && Uses(s, t, key)
    ensures CacheSpec.WellFormed(t)
    ensures t.Order() == if key in s.lru.ring then s.Order() else Without(s.Order(), key) + [key]
  {
    hide Minus, Touch;
    TouchKeeps(s.lru, key, R.LEN_RING_BUF);
  }

  lemma DropKeepsShape(s: State, t: State, key: Key)
    requires CacheSpec.WellFormed(s) && EvictsKey(s, t, key)
    ensures CacheSpec.WellFormed(t) && t.Order() == Without(s.Order(), key)
  {
    hide Minus, Drop;
    DropKeeps(s.lru, key);
  }

  /** Every call keeps the recency list one of the stored keys, each once. */
  lemma StepKeepsShape(size: nat, e: Event)
    requires Allowed(size, e) && CacheSpec.WellFormed(e.before)
    ensures CacheSpec.WellFormed(e.after)
  {
    hide Evictions, EvictOne, Adds, Uses, EvictsKey, CacheSpec.WellFormed, Order;
    var s, t := e.before, e.after;
    match e.op {
      case PutOp(key, value) =>
        EvictionsAre(s, e.evicted);
        if e.result.err == OK { AddKeepsShape(Evictions(s, e.evicted), t, key, value); }
      case GetOp(key, hasBuf, room, offset) => if e.result.found { UseKeepsShape(s, t, key); }
      case ExistsOp(_) =>
      case EvictOp => if e.result.err == OK { OneGone(s); }
      case EvictKeyOp(key) => if e.result.err == OK { DropKeepsShape(s, t, key); }
    }
  }

  lemma {:induction false} AlwaysWellFormed(size: nat, start: State, run: seq<Event>, i: nat)
    requires Run(size, start, run) && CacheSpec.WellFormed(start) && i <= |run|
    ensures CacheSpec.WellFormed(Upto(start, run, i))
  {
    hide Allowed, CacheSpec.WellFormed;
    if i > 0 {
      AlwaysWellFormed(size, start, run, i - 1);
      StepKeepsShape(size, run[i - 1]);
    }
  }

  // ---------- a hit returns what was put last

  lemma {:induction false} EvictionsKeep(s: State, n: nat, key: Key)
    requires key in Evictions(s, n).content
    ensures key in s.content && Evictions(s, n).content[key] == s.content[key]
  {
    if n > 0 {
      EvictionsKeep(s, n - 1, key);
    }
  }

  lemma KeptOrPut(size: nat, e: Event, key: Key)
    requires Allowed(size, e) && key in e.after.content
    ensures PutsKey(e, key) ==> e.after.content[key] == e.op.value
    ensures !PutsKey(e, key) ==> key in e.before.content && e.after.content[key] == e.before.content[key]
  {
    hide Evictions, Order, Touch, Drop;
    if e.op.PutOp? && !PutsKey(e, key) {
      EvictionsKeep(e.before, e.evicted, key);
    }
  }

  /** A stored value is the one of the last successful put of its key, and the key was never gone since. */
  lemma {:induction false} StoredIsLastPut(size: nat, run: seq<Event>, i: nat, key: Key) returns (p: nat)
    requires Run(size, EMPTY, run) && i <= |run| && key in Upto(EMPTY, run, i).content
    ensures p < i && PutsKey(run[p], key) && Upto(EMPTY, run, i).content[key] == run[p].op.value
    ensures forall j | p < j < i :: !PutsKey(run[j], key) && key in run[j].before.content && key in run[j].after.content
  {
    hide Allowed;
    KeptOrPut(size, run[i - 1], key);
    if PutsKey(run[i - 1], key) {
      p := i - 1;
    } else {
      p := StoredIsLastPut(size, run, i - 1, key);
    }
  }

  /** The main promise: a get that hits returns the requested part of the value last put under its key. */
  lemma HitReturnsLastPut(size: nat, run: seq<Event>, i: nat) returns (p: nat)
    requires Run(size, EMPTY, run) && i < |run| && run[i].op.GetOp? && run[i].result.found
    ensures p < i && PutsKey(run[p], run[i].op.key)
    ensures forall j | p < j < i :: !PutsKey(run[j], run[i].op.key)
    ensures run[i].result.vsize == |run[p].op.value|
    ensures run[i].op.hasBuf ==> run[i].result.out == Window(run[p].op.value, run[i].op.offset, run[i].op.room)
  {
    hide Uses;
    p := StoredIsLastPut(size, run, i, run[i].op.key);
  }

  // ---------- how long a used key stays

  /** A key that has just been hit outlives exactly as many evictions as there are keys before it: all the others, if it
      was not buffered; and if it was, at least the unbuffered ones, for it keeps its place. */
  lemma UsedSurvives(s: State, t: State, u: State, key: Key, n: nat) returns (pos: nat)
    requires CacheSpec.WellFormed(s) && Uses(s, t, key) && EvictsPrefix(t, u, n)
    ensures pos < |t.Order()| && t.Order()[pos] == key && (key in u.content <==> n <= pos)
    ensures key !in s.lru.ring ==> pos == |t.Order()| - 1
    ensures key in s.lru.ring ==> |s.Order()| - |s.lru.ring| <= pos && s.Order()[pos] == key && t == s
  {
    hide Minus, Evictions, LruSpec.WellFormed, Touch;
    UseKeepsShape(s, t, key);
    EvictionsAre(t, n);
    OrderFacts(t.lru);
    OrderFacts(u.lru);
    pos := UsedPlace(s, t, key);
    hide Order;
    Later(t.Order(), n, pos);
  }

  lemma UsedPlace(s: State, t: State, key: Key) returns (pos: nat)
    requires Uses(s, t, key) && t.Order() == if key in s.lru.ring then s.Order() else Without(s.Order(), key) + [key]
    ensures pos < |t.Order()| && t.Order()[pos] == key
    ensures key !in s.lru.ring ==> pos == |t.Order()| - 1
    ensures key in s.lru.ring ==> |s.Order()| - |s.lru.ring| <= pos && s.Order()[pos] == key && t == s
  {
    hide Minus;
    if key in s.lru.ring {
      var i :| 0 <= i < |s.lru.ring| && s.lru.ring[i] == key;
      pos := |s.Order()| - |s.lru.ring| + i;
    } else {
      pos := |t.Order()| - 1;
    }
  }

  lemma Later(order: seq<Key>, n: nat, pos: nat)
    requires Distinct(order) && n <= |order| && pos < |order|
    ensures order[pos] in order[n..] <==> n <= pos
  {
    var rest := order[n..];
    if n <= pos {
      assert rest[pos - n] == order[pos];
    } else {
      forall i | 0 <= i < |rest| ensures rest[i] != order[pos] { assert rest[i] == order[n + i]; }
    }
  }

  // ---------- when the ring is flushed

  /** The next eviction finds the head of the list in the ring. */
  predicate HeadIsBuffered(s: State) {
    s.lru.list != [] && s.lru.list[0] in s.lru.ring
  }

  /** What flushes the ring: an eviction that finds the head of the list in it, the eviction of a key in it, and the use of
      another key when it is full. */
  predicate Flushes(e: Event) {
    match e.op
    case PutOp(_, _) => FlushesWithin(e.before, e.evicted)
    case GetOp(key, _, _, _) =>
      key in e.before.content && key !in e.before.lru.ring && R.LEN_RING_BUF <= |e.before.lru.ring|
    case ExistsOp(_) => false
    case EvictOp => HeadIsBuffered(e.before)
    case EvictKeyOp(key) => key in e.before.lru.ring
  }

  /** One of the next `n` evictions does. */
  predicate FlushesWithin(s: State, n: nat) {
    exists m: nat | m < n :: HeadIsBuffered(Evictions(s, m))
  }

  lemma OneLonger(s: State, n: nat)
    requires 0 < n
    ensures FlushesWithin(s, n) <==> FlushesWithin(s, n - 1) || HeadIsBuffered(Evictions(s, n - 1))
  {
    hide Evictions, HeadIsBuffered;
    if FlushesWithin(s, n) {
      var m: nat :| m < n && HeadIsBuffered(Evictions(s, m));
      assert m < n - 1 || m == n - 1;
    }
  }

  lemma {:induction false} EvictionsRing(s: State, n: nat)
    requires CacheSpec.WellFormed(s) && n <= |s.Order()|
    ensures Evictions(s, n).lru.ring == if FlushesWithin(s, n) then [] else s.lru.ring
  {
    hide Minus, HeadIsBuffered, FlushesWithin, EvictOne, CacheSpec.WellFormed;
    if n == 0 {
      NoFlush(s);
    } else {
      EvictionsRing(s, n - 1);
      EvictionsAre(s, n - 1);
      OneLonger(s, n);
      OneRing(Evictions(s, n - 1));
    }
  }

  lemma NoFlush(s: State)
    ensures !FlushesWithin(s, 0)
  {
  }

  lemma OneRing(s: State)
    requires CacheSpec.WellFormed(s) && s.Order() != []
    ensures EvictOne(s).lru.ring == if HeadIsBuffered(s) then [] else s.lru.ring
  {
    hide Minus;
    OrderFacts(s.lru);
    assert s.Order()[0] in s.Order();
    DropOldestKeeps(s.lru);
  }

  /** Exactly these calls take keys out of the ring, and then all of them; any other only adds to its end. */
  lemma RingStep(size: nat, e: Event)
    requires Allowed(size, e) && CacheSpec.WellFormed(e.before)
    ensures Flushes(e) ==> forall k | k in e.before.lru.ring :: k !in e.after.lru.ring
    ensures !Flushes(e) ==> e.before.lru.ring <= e.after.lru.ring
  {
    hide Evictions, Minus, CacheSpec.WellFormed;
    var s := e.before;
    match e.op {
      case PutOp(key, value) => EvictionsRing(s, e.evicted);
      case GetOp(key, hasBuf, room, offset) =>
      case ExistsOp(_) =>
      case EvictOp => if e.result.err == OK { OneRing(s); } else { NothingBuffered(s); }
      case EvictKeyOp(key) => BufferedIsStored(s, key);
    }
  }

  lemma NothingBuffered(s: State)
    requires CacheSpec.WellFormed(s) && s.Order() == []
    ensures s.lru.list == [] && s.lru.ring == []
  {
    hide Minus;
    OrderFacts(s.lru);
    var x := if s.lru.list == [] then [] else s.lru.list[0];
    assert (s.lru.list != [] ==> x in s.lru.list) && x !in s.Order();
  }

  lemma BufferedIsStored(s: State, key: Key)
    requires CacheSpec.WellFormed(s)
    ensures key in s.lru.ring ==> key in s.content
  {
  }

  /** The law of a whole run: a key in the ring stays in its place there as long as no call flushes the ring, and hits of
      it in the meantime change nothing. */
  lemma {:induction false} StaysBuffered(size: nat, start: State, run: seq<Event>, i: nat, j: nat)
    requires Run(size, start, run) && CacheSpec.WellFormed(start) && i <= j <= |run|
    requires forall m | i <= m < j :: !Flushes(run[m])
    ensures Upto(start, run, i).lru.ring <= Upto(start, run, j).lru.ring
    ensures j < |run| && run[j].op.GetOp? && run[j].op.key in Upto(start, run, i).lru.ring ==>
              run[j].result.found && run[j].after == run[j].before
    decreases j
  {
    hide Flushes, CacheSpec.WellFormed, Minus, Allowed, Run, Upto;
    AlwaysWellFormed(size, start, run, j);
    if i < j {
      StaysBuffered(size, start, run, i, j - 1);
      AlwaysWellFormed(size, start, run, j - 1);
      RunAt(size, start, run, j - 1);
      RingStep(size, run[j - 1]);
    }
    if j < |run| && run[j].op.GetOp? {
      RunAt(size, start, run, j);
      HitAgain(size, run[j]);
    }
  }

  lemma RunAt(size: nat, start: State, run: seq<Event>, i: nat)
    requires Run(size, start, run) && i < |run|
    ensures Allowed(size, run[i]) && run[i].before == Upto(start, run, i) && run[i].after == Upto(start, run, i + 1)
  {
  }

  lemma HitAgain(size: nat, e: Event)
    requires Allowed(size, e) && CacheSpec.WellFormed(e.before) && e.op.GetOp?
    ensures e.op.key in e.before.lru.ring ==> e.result.Answer? && e.result.found && e.after == e.before
  {
    BufferedIsStored(e.before, e.op.key);
  }

  // ---------- statistics

  function CountOf(e: Event): I.Totals {
    I.Totals(OneIf(e.op.PutOp? && e.result == Status(OK)), e.evicted,
             OneIf(e.op.GetOp? && e.result.Answer? && e.result.found),
             OneIf(e.op.GetOp? && e.result.Answer? && !e.result.found))
  }

  function Plus(a: I.Totals, b: I.Totals): I.Totals {
    I.Totals(a.puts + b.puts, a.evicts + b.evicts, a.hits + b.hits, a.misses + b.misses)
  }

  /** Successful puts, evicted keys, gets that hit, and gets that missed. */
  function Counts(run: seq<Event>): I.Totals {
    if run == [] then I.Totals(0, 0, 0, 0) else Plus(Counts(run[..|run| - 1]), CountOf(run[|run| - 1]))
  }

  lemma CountsSnoc(run: seq<Event>, e: Event)
    ensures Counts(run + [e]) == Plus(Counts(run), CountOf(e))
  {
    assert (run + [e])[..|run|] == run;
  }

  /** The number of stored keys is that of puts less that of evictions. */
  lemma {:induction false} PutsLessEvicts(size: nat, run: seq<Event>, i: nat)
    requires Run(size, EMPTY, run) && i <= |run|
    ensures |Upto(EMPTY, run, i).Order()| == Counts(run[..i]).puts - Counts(run[..i]).evicts
  {
    if i > 0 {
      PutsLessEvicts(size, run, i - 1);
      assert run[..i][..i - 1] == run[..i - 1];
      AlwaysWellFormed(size, EMPTY, run, i - 1);
      OneCall(size, run[i - 1]);
    }
  }

  lemma OneCall(size: nat, e: Event)
    requires Allowed(size, e) && CacheSpec.WellFormed(e.before)
    ensures |e.after.Order()| == |e.before.Order()| + CountOf(e).puts - CountOf(e).evicts
  {
    hide Evictions, EvictOne, Adds, Touch, Drop, CacheSpec.WellFormed, Order;
    var s, t := e.before, e.after;
    match e.op {
      case PutOp(key, value) =>
        EvictionsAre(s, e.evicted);
        if e.result.err == OK { AddKeepsShape(Evictions(s, e.evicted), t, key, value); }
      case GetOp(key, hasBuf, room, offset) => if e.result.found { UseKeepsShape(s, t, key); KeyOnce(s, key); }
      case ExistsOp(_) =>
      case EvictOp => if e.result.err == OK { OneGone(s); }
      case EvictKeyOp(key) => if e.result.err == OK { DropKeepsShape(s, t, key); KeyOnce(s, key); }
    }
  }

  lemma KeyOnce(s: State, key: Key)
    requires CacheSpec.WellFormed(s) && key in s.content
    ensures |Without(s.Order(), key)| == |s.Order()| - 1
  {
    hide Minus;
    OrderFacts(s.lru);
    WithoutMembers(s.Order(), key);
  }

  // ---------- the cache only makes such runs

  ghost predicate ShortKey(op: Op) {
    op.EvictOp? || |op.key| <= MAX_KEY
  }

  method Step(cache: C.Cache, op: Op) returns (result: Result, ghost e: Event)
    requires cache.Valid({}, {}) && ShortKey(op)
    modifies cache, cache.heap, cache.index, cache.index.bucket, cache.lru, cache.lru.q, cache.lru.ring,
             cache.lru.ring.data, cache.pool
    ensures cache.Valid({}, {}) && Allowed(cache.size, e) && e.op == op && e.result == result
    ensures e.before == old(cache.Abs({})) && e.after == cache.Abs({})
    ensures cache.index.Stats() == Plus(old(cache.index.Stats()), CountOf(e))
  {
    hide C.Cache.Parts, K.Indexed, K.Backed, K.Listed, K.AtRest, C.Cache.Abs, Put, Get, Evict, EvictKey, I.Index.Stats;
    ghost var s := cache.Abs({});
    ghost var n: nat := 0;
    match op {
      case PutOp(key, value) =>
        var err;
        err, n := cache.Put(key, value);
        result := Status(err);
      case GetOp(key, hasBuf, room, offset) =>
        var found, out, vsize := cache.Get(key, hasBuf, room, offset);
        result := Answer(found, out, vsize);
      case ExistsOp(key) =>
        var found, vsize := cache.Exists(key);
        result := Answer(found, [], vsize);
      case EvictOp =>
        var err;
        ghost var id;
        err, id := cache.Evict({});
        n := OneIf(err == OK);
        result := Status(err);
      case EvictKeyOp(key) =>
        var err := cache.EvictKey(key);
        n := OneIf(err == OK);
        result := Status(err);
    }
    e := Event(s, op, result, cache.Abs({}), n);
  }

  lemma NoCounts()
    ensures Counts([]) == I.Totals(0, 0, 0, 0)
  {
  }

  lemma RunNothing(size: nat, start: State)
    ensures Run(size, start, []) && Upto(start, [], 0) == start
  {
  }

  lemma RunSnoc(size: nat, start: State, run: seq<Event>, e: Event)
    requires Run(size, start, run) && Allowed(size, e) && e.before == Upto(start, run, |run|)
    ensures Run(size, start, run + [e]) && Upto(start, run + [e], |run| + 1) == e.after
  {
    var t := run + [e];
    forall i | 0 <= i < |t| ensures Allowed(size, t[i]) && t[i].before == Upto(start, t, i) {
      assert i < |run| ==> t[i] == run[i] && Upto(start, t, i) == Upto(start, run, i);
    }
  }

  /** Any sequence of calls on a cache is a run of the specification, and the cache ends where the run does. */
  method Execute(cache: C.Cache, ops: seq<Op>) returns (results: seq<Result>, ghost run: seq<Event>)
    requires cache.Valid({}, {}) && (forall op | op in ops :: ShortKey(op))
    modifies cache, cache.heap, cache.index, cache.index.bucket, cache.lru, cache.lru.q, cache.lru.ring,
             cache.lru.ring.data, cache.pool
    ensures cache.Valid({}, {}) && |results| == |run| == |ops|
    ensures Run(cache.size, old(cache.Abs({})), run) && cache.Abs({}) == Upto(old(cache.Abs({})), run, |run|)
    ensures forall i | 0 <= i < |ops| :: run[i].op == ops[i] && run[i].result == results[i]
    ensures cache.index.Stats() == Plus(old(cache.index.Stats()), Counts(run))
  {
    hide C.Cache.Parts, K.Indexed, K.Backed, K.Listed, K.AtRest, C.Cache.Abs, Allowed, Run, Upto, I.Index.Stats, Counts,
         CountOf;
    NoCounts();
    ghost var start := cache.Abs({});
    RunNothing(cache.size, start);
    results, run := [], [];
    while |results| < |ops|
      invariant cache.Valid({}, {}) && |results| == |run| <= |ops|
      invariant Run(cache.size, start, run) && cache.Abs({}) == Upto(start, run, |run|)
      invariant forall i | 0 <= i < |run| :: run[i].op == ops[i] && run[i].result == results[i]
      invariant cache.index.Stats() == Plus(old(cache.index.Stats()), Counts(run))
    {
      var r;
      ghost var e;
      r, e := Step(cache, ops[|results|]);
      RunSnoc(cache.size, start, run, e);
      CountsSnoc(run, e);
      results, run := results + [r], run + [e];
    }
  }

  // ---------- a new cache

  /** The first put into a new cache succeeds exactly for values that fit between the guards. */
  method FirstPut(addr: int, size: nat, extentSize: int, guardFooter: int, guardHeader: Y.Header, sharding: bool,
                  hash: Key -> nat, key: Key, value: seq<byte>)
    returns (cache: C.Cache, err: Error)
    requires 0 < addr && H.MIN_POOL <= size && addr + size < Y.FLAG_ALLOCATED
    requires H.MIN_EXTENT <= extentSize < Y.FLAG_ALLOCATED && |key| <= MAX_KEY
    requires 0 <= guardFooter < 2 * Y.FLAG_ALLOCATED && 0 <= guardHeader.sizeFlags < 2 * Y.FLAG_ALLOCATED
    ensures cache.Valid({}, {}) && cache.size == size
    ensures var room := cache.heap.reg.hi - cache.heap.reg.lo - Y.HFER_SIZE;
            err == (if |value| <= room then OK else ENOSPC) && size - 4 * H.GUARD_SIZE - Y.HFER_SIZE < room
    ensures |value| <= size - 4 * H.GUARD_SIZE - Y.HFER_SIZE ==> err == OK && cache.Abs({}).content == map[key := value]
    ensures size - 2 * H.GUARD_SIZE - Y.HFER_SIZE < |value| ==> err == ENOSPC
  {
    hide C.Cache.Parts, K.Indexed, K.Backed, K.Listed, K.AtRest, C.Cache.Abs, I.Index.Stats;
    cache := new C.Cache(addr, size, extentSize, guardFooter, guardHeader, sharding, hash);
    ghost var n;
    assert forall i | 0 <= i < |cache.index.bucket| :: cache.index.bucket[i] in cache.index.bucket;
    err, n := cache.Put(key, value);
  }
}
