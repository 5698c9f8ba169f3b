/** What the cache promises: a map from keys to byte strings, with a buffered recency list and evictions. */
module CacheSpec {
  import opened Bytes
  import opened Sequences
  import opened LruSpec
  import R = RingBuffer

  /** The stored values, and the keys on the recency list and in the ring. */
  datatype State = State(content: map<Key, seq<byte>>, lru: Buffered<Key>) {
    /** The keys, least recently used first. */
    function Order(): seq<Key> {
      LruSpec.Order(lru)
    }
  }

  datatype Error = OK | ENOENT | EEXIST | ENOSPC | ESRCH

  function Members(s: seq<Key>): set<Key> {
    set k | k in s
  }

  /** The list has exactly the stored keys, each once, and the ring only some of them. */
  ghost predicate WellFormed(s: State) {
    LruSpec.WellFormed(s.lru) && forall k :: k in s.lru.list <==> k in s.content
  }

  /** The oldest key goes. */
  function EvictOne(s: State): State {
    if s.Order() == [] then s else State(s.content - {s.Order()[0]}, DropOldest(s.lru))
  }

  /** The `n` oldest keys go, one after the other. */
  function Evictions(s: State, n: nat): State {
    if n == 0 then s else EvictOne(Evictions(s, n - 1))
  }

  ghost predicate EvictsPrefix(s: State, t: State, n: nat) {
    n <= |s.Order()| && t == Evictions(s, n)
  }

  /** The keys left when the `n` oldest are gone. */
  function KeysLeft(s: State, n: nat): set<Key>
    requires n <= |s.Order()|
  {
    s.content.Keys - Members(s.Order()[..n])
  }

  ghost predicate Uses(s: State, t: State, key: Key) {
    key in s.content && t == s.(lru := Touch(s.lru, key, R.LEN_RING_BUF))
  }

  ghost predicate EvictsKey(s: State, t: State, key: Key) {
    key in s.content && t == State(s.content - {key}, Drop(s.lru, key))
  }

  ghost predicate Adds(s: State, t: State, key: Key, value: seq<byte>) {
    key !in s.content && t == State(s.content[key := value], Add(s.lru, key))
  }

  /** A put that has evicted `n` keys. */
  ghost predicate Put(s: State, t: State, size: nat, key: Key, value: seq<byte>, err: Error, n: nat) {
    && n <= |s.Order()|
    && match err
       case OK => Adds(Evictions(s, n), t, key, value)
       case EEXIST => t == Evictions(s, n) && key in t.content
       case ENOSPC => t == Evictions(s, n) && if |value| > size then n == 0 else n == |s.Order()|
       case _ => false
  }

  ghost predicate Get(s: State, t: State, key: Key, hasBuf: bool, room: nat, offset: nat, found: bool,
                      out: seq<byte>, vsize: int) {
    if key in s.content
    then found && Uses(s, t, key) && vsize == |s.content[key]|
         && out == if hasBuf then Window(s.content[key], offset, room) else []
    else !found && t == s && out == []
  }

  ghost predicate Evict(s: State, t: State, err: Error) {
    match err
    case OK => s.Order() != [] && t == EvictOne(s)
    case ESRCH => s.Order() == [] && t == s
    case _ => false
  }

  ghost predicate EvictKey(s: State, t: State, key: Key, err: Error) {
    match err
    case OK => EvictsKey(s, t, key)
    case ENOENT => key !in s.content && t == s
    case _ => false
  }

  // ---------- evictions

  lemma OneGone(s: State)
    requires WellFormed(s) && s.Order() != []
    ensures var k := s.Order()[0];
            && WellFormed(EvictOne(s)) && EvictOne(s).Order() == s.Order()[1..]
            && k in s.content && EvictOne(s).content == s.content - {k}
  {
    hide Minus, DropOldest;
    OrderFacts(s.lru);
    assert s.Order()[0] in s.Order();
    DropOldestKeeps(s.lru);
  }

  /** Evicting `n` times takes the first `n` keys of the order. */
  lemma {:induction false} EvictionsAre(s: State, n: nat)
    requires WellFormed(s) && n <= |s.Order()|
    ensures var t := Evictions(s, n);
            && WellFormed(t) && t.Order() == s.Order()[n..] && t.content == s.content - Members(s.Order()[..n])
  {
    hide EvictOne, WellFormed;
    var o := s.Order();
    if n == 0 {
      assert Members(o[..0]) == {};
    } else {
      EvictionsAre(s, n - 1);
      var t := Evictions(s, n - 1);
      OneGone(t);
      assert o[..n] == o[..n - 1] + [o[n - 1]];
      assert Members(o[..n]) == Members(o[..n - 1]) + {o[n - 1]};
    }
  }

  lemma EvictsNone(s: State)
    ensures EvictsPrefix(s, s, 0)
  {
  }

  lemma EvictsOneMore(s: State, t: State, n: nat)
    requires WellFormed(s) && EvictsPrefix(s, t, n) && t.Order() != []
    ensures EvictsPrefix(s, EvictOne(t), n + 1)
  {
    EvictionsAre(s, n);
  }

  lemma EvictsLeaves(s: State, t: State, n: nat)
    requires WellFormed(s) && EvictsPrefix(s, t, n)
    ensures WellFormed(t) && t.content.Keys == KeysLeft(s, n) && |t.Order()| == |s.Order()| - n
    ensures t.Order() == [] ==> n == |s.Order()|
  {
    EvictionsAre(s, n);
  }
}
