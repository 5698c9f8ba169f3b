/** The cache: put, get, exists and evict over the heap, the index and the replacement policy, run serially. */
module Cache {
  import opened Bytes
  import opened Sequences
  import opened Sums
  import opened LruSpec
  import opened HeapLayout
  import opened HeapInvariant
  import opened HeapConservation
  import opened Values
  import opened CacheLinks
  import opened CacheNames
  import H = Heap
  import I = Index
  import L = Lru
  import S = CacheSpec

  /** Evicting the oldest entry, seen through the keys. */
  lemma Evicting(b: Buffered<int>, ents: Entries)
    requires Nameable(b, ents)
    ensures b.list == [] <==> Order(Named(b, ents)) == []
    ensures b.list == [] ==> DropOldest(b) == b
    ensures b.list != [] ==>
              var e := Order(b)[0];
              && e in ents && Order(Named(b, ents))[0] == ents[e].key
              && Named(DropOldest(b), ents - {e}) == DropOldest(Named(b, ents))
              && forall y :: y in DropOldest(b).list <==> y in b.list && y != e
  {
    hide Minus, Named;
    NamedOrder(b, ents);
    OrderFacts(b);
    assert Order(b) == [] || Order(b)[0] in Order(b);
    if b.list != [] {
      NamedDropOldest(b, ents);
      DropOldestKeeps(b);
    }
  }

  lemma RemainsAll(l: Layout, ents: Entries)
    ensures Remains(l, ents, l, ents)
  {
  }

  ghost predicate ChainAt(l: Layout, w: Owner, first: int) {
    w in Chains(l) && first == At(Chains(l)[w], 0)
  }

  /** The chain has room for the value, and no more than allocation may waste. */
  ghost predicate Fitted(r: Region, l: Layout, w: Owner, vsize: int, small: int) {
    && r.Valid() && w in Chains(l)
    && if vsize == 0 then Chains(l)[w] == [] else Filled(r, l, w, vsize, small) && vsize <= r.hi - r.lo - HFER_SIZE
  }

  ghost predicate TooLong(r: Region, vsize: int) {
    r.Valid() && GuaranteedRoom(r) < vsize
  }

  /** What a put found: the keys and values, the heap, the index and the entries. */
  datatype Found = Found(s: S.State, l: Layout, names: Names, ents: Entries)

  /** The last of `n` evictions was needed: with the ones before it, what the remaining values leave might not hold `vsize`
      bytes. */
  ghost predicate EvictionsNeeded(r: Region, b: Found, n: nat, vsize: int) {
    0 < n ==> n <= |b.s.Order()| && r.Valid() && Short(r, b.l, b.ents, S.KeysLeft(b.s, n - 1), vsize)
  }

  lemma NoneNeeded(r: Region, b: Found, vsize: int)
    ensures EvictionsNeeded(r, b, 0, vsize)
  {
  }

  lemma OneMoreNeeded(r: Region, b: Found, n: nat, vsize: int)
    requires r.Valid() && n + 1 <= |b.s.Order()| && Short(r, b.l, b.ents, S.KeysLeft(b.s, n), vsize)
    ensures EvictionsNeeded(r, b, n + 1, vsize)
  {
  }

  lemma NeededSame(r: Region, b: Found, c: Found, n: nat, vsize: int)
    requires EvictionsNeeded(r, b, n, vsize) && c.s == b.s && c.ents == b.ents && Held(c.l) == Held(b.l)
    ensures EvictionsNeeded(r, c, n, vsize)
  {
    ShortSame(b.l, c.l, b.ents);
  }

  lemma SmallerMap(m: Entries, k: int)
    requires k in m
    ensures |m - {k}| < |m|
  {
    assert m == (m - {k})[k := m[k]];
  }

  lemma NothingYet(l: Layout, pool: seq<byte>, base: int)
    requires Chains(l) == map[] && Held(l) == map[]
    ensures Total(Payloads(l)) == 0
    ensures Indexed(map[], map[]) && AtRest(map[], 1, {}) && Listed(map[], [], {}, {}, {})
    ensures Backed(map[], l, {}, base, |pool|)
    ensures Content(map[], map[], l, pool, base, {}) == map[]
  {
  }

  lemma NothingHeld(m: map<int, int>)
    requires forall a :: a !in m
    ensures Total(m) == 0
  {
  }

  lemma NoEntries(names: Names, ents: Entries, l: Layout, base: int, poolSize: int)
    requires Indexed(names, ents) && Backed(ents, l, {}, base, poolSize) && (forall x :: x !in ents)
    ensures (forall k :: k !in names) && (forall w :: w !in Chains(l))
  {
    hide EntryOk, Chains;
    forall k ensures k !in names {
      var id := if k in names then names[k] else 0;
      assert id !in ents;
    }
    forall w ensures w !in Chains(l) {
      var id := if w.Used? then w.id else 0;
      assert id !in ents;
    }
  }

  lemma AllFree(l: Layout)
    requires Owned(l) && NoLimbo(l) && (forall w :: w !in Chains(l))
    ensures forall a | a in l.owners :: l.owners[a] == Free
    ensures forall a :: a !in Payloads(l)
  {
    assert forall a | a in l.owners :: l.owners[a] != Free ==> l.owners[a] in Chains(l);
  }

  lemma OpenSame(l: Layout, m: Layout, w: Owner)
    requires w !in Chains(l) && Chains(m) == Chains(l)[w := []] && Held(m) == Held(l)
    ensures OthersKept(l, m, w) && Payloads(m) == Payloads(l)
  {
  }

  lemma RestLater(ents: Entries, id: int, id': int)
    requires AtRest(ents, id, {}) && id <= id'
    ensures AtRest(ents, id', {})
  {
  }

  lemma CommitRest(ents: Entries, nextId: int, id: int, e: Entry)
    requires AtRest(ents, nextId, {}) && 0 < id < nextId && e.refcount == 2 && !e.evicting
    ensures AtRest(ents[id := e], nextId, {})
  {
  }

  /** A filled chain has room for the value; and its last extent is needed unless the region is a wasteful one. */
  lemma FilledRoom(r: Region, l: Layout, w: Owner, value: seq<byte>, small: int)
    requires r.Valid() && Tiled(r, l.sizes) && Aligned(r, l.sizes) && Owned(l) && w.Used? && w in Chains(l)
    requires if value == [] then Chains(l)[w] == [] else Filled(r, l, w, |value|, small)
    requires Room(Exts(l, w)) == Capacity(l, w)
    ensures |value| <= Room(Exts(l, w))
    ensures !Wasteful(r) ==> Exts(l, w) == [] || Room(Exts(l, w)[..|Exts(l, w)| - 1]) < |value|
  {
    var s, e := Chains(l)[w], Exts(l, w);
    if value != [] && !Wasteful(r) {
      LastExtentNeeded(r, l, w, |value|, small);
      ChainIsHeld(l, w);
      var n := |s| - 1;
      CapIsRoom(Payloads(l), s[..n], e[..n]);
    }
  }

  datatype Stat = PUT | GET | HIT | MISS | EVICT | ENTRIES | POOL_SIZE_USED | HEAP_ENTRIES

  lemma SameSize(names: Names, content: map<Key, seq<byte>>)
    requires forall k :: k in names <==> k in content
    ensures |names| == |content|
  {
    assert names.Keys == content.Keys;
    assert |names| == |names.Keys| && |content| == |content.Keys|;
  }

  class Cache {
    const heap: H.Heap
    const index: I.Index
    const lru: L.Lru
    const pool: array<byte>
    const base: int
    const size: nat
    var entries: Entries
    var nextId: int

    ghost predicate Parts()
      reads this, heap, index, index.bucket, lru, lru.q, lru.ring, lru.ring.data, pool
    {
      && heap.Valid(Limbo) && NoLimbo(heap.l) && index.Valid() && lru.Valid([])
      && lru.ring.data as object != pool as object
      && pool.Length == size && base <= heap.reg.lo && heap.reg.hi <= base + size
      && heap.sizeUsed == Total(Payloads(heap.l))
    }

    ghost predicate Links(pend: set<int>, out: set<int>)
      reads this, heap, index, lru, lru.q
    {
      && Indexed(index.content, entries)
      && AtRest(entries, nextId, out) && 0 < nextId && (forall id | id in pend :: 0 < id < nextId)
      && Listed(entries, lru.q.order, lru.cell.Keys, pend, out)
      && Backed(entries, heap.l, pend, base, pool.Length)
    }

    /** `pend`: values being put; `out`: entries being evicted. */
    ghost predicate Valid(pend: set<int>, out: set<int>)
      reads this, heap, index, index.bucket, lru, lru.q, lru.ring, lru.ring.data, pool
    {
      Parts() && Links(pend, out)
    }

    ghost function Abs(pend: set<int>): S.State
      requires Indexed(index.content, entries) && Backed(entries, heap.l, pend, base, pool.Length)
      reads this, heap, index, lru, lru.q, lru.ring, pool
    {
      S.State(Content(index.content, entries, heap.l, pool[..], base, pend), Named(lru.State(), entries))
    }

    constructor (addr: int, size: nat, extentSize: int, guardFooter: int, guardHeader: Header, sharding: bool, hash: Key -> nat)
      requires 0 < addr && H.MIN_POOL <= size && addr + size < FLAG_ALLOCATED
      requires H.MIN_EXTENT <= extentSize < FLAG_ALLOCATED
      requires 0 <= guardFooter < 2 * FLAG_ALLOCATED && 0 <= guardHeader.sizeFlags < 2 * FLAG_ALLOCATED
      ensures Valid({}, {}) && Abs({}) == S.State(map[], Buffered([], [])) && index.Stats() == I.Totals(0, 0, 0, 0)
      ensures this.size == size && base == addr && heap.reg.extentSize == extentSize
      ensures addr + H.GUARD_SIZE <= heap.reg.lo < addr + 2 * H.GUARD_SIZE && heap.reg.lo % H.GUARD_SIZE == 0
      ensures addr + size - 2 * H.GUARD_SIZE < heap.reg.hi <= addr + size - H.GUARD_SIZE
      ensures heap.reg.hi % H.GUARD_SIZE == 0
      ensures FreeRoom(heap.l) == heap.reg.hi - heap.reg.lo - HFER_SIZE
      ensures fresh(heap) && fresh(index) && (forall b | b in index.bucket :: fresh(b)) && fresh(pool)
      ensures fresh(lru) && fresh(lru.q) && fresh(lru.ring) && fresh(lru.ring.data)
      ensures index.sharding == sharding && index.hash == hash
    {
      hide H.Heap.Valid, I.Index.Valid, L.Lru.Valid, NoLimbo, Indexed, AtRest, Listed, Backed, Chains, Content,
           Payloads, Total, FreeRoom, I.Index.Stats;
      heap := new H.Heap(addr, size, extentSize, guardFooter, guardHeader);
      index := new I.Index(sharding, hash);
      lru := new L.Lru();
      pool := new byte[size](_ => 0);
      base, this.size := addr, size;
      entries, nextId := map[], 1;
      new;
      NothingYet(heap.l, pool[..], base);
      NoKeys(entries);
      assert lru.q.order == [] && lru.cell.Keys == {} && entries == map[] && index.content == map[];
      assert Links({}, {});
    }

    /** Drop one reference; the last one frees the entry and its extents. */
    method Release(id: int)
      requires id in entries && heap.Valid(Limbo) && NoLimbo(heap.l) && id in lru.cell
      requires Used(id) in Chains(heap.l) && entries[id].extents == At(Chains(heap.l)[Used(id)], 0)
      requires lru.Valid([]) && (entries[id].refcount == 1 ==> id !in lru.q.order)
      modifies `entries, heap, lru`cell
      ensures heap.Valid(Limbo) && NoLimbo(heap.l) && lru.Valid([])
      ensures old(entries[id]).refcount != 1 ==>
                && entries == old(entries)[id := old(entries[id]).(refcount := old(entries[id]).refcount - 1)]
                && lru.cell == old(lru.cell) && heap.l == old(heap.l) && heap.sizeUsed == old(heap.sizeUsed)
      ensures old(entries[id]).refcount == 1 ==>
                && entries == old(entries) - {id} && lru.cell == old(lru.cell) - {id}
                && Chains(heap.l) == Chains(old(heap.l)) - {Used(id)} && OthersKept(old(heap.l), heap.l, Used(id))
                && (Chains(old(heap.l))[Used(id)] != [] ==> heap.l.lists[Free] != [])
                && Total(Payloads(heap.l)) - heap.sizeUsed == Total(Payloads(old(heap.l))) - old(heap.sizeUsed)
    {
      hide H.Heap.Valid, L.Lru.Valid, NoLimbo, Chains, OthersKept, At;
      var e := entries[id];
      entries := entries[id := e.(refcount := e.refcount - 1)];
      if e.refcount != 1 {
        return;
      }
      heap.FreeChain(e.extents, Used(id));
      entries := entries - {id};
      lru.ForgetCell(id);
    }

    /** The end of an eviction: the policy's reference and then the index's are dropped. */
    method FinishEvict(id: int, ghost pend: set<int>)
      requires Valid(pend, {id}) && id in entries && entries[id].refcount == 2
      modifies `entries, heap, index, index.bucket, lru`cell
      ensures Valid(pend, {}) && entries == old(entries) - {id}
      ensures Abs(pend).content == old(Abs(pend)).content - {old(entries[id]).key}
      ensures OthersKept(old(heap.l), heap.l, Used(id)) && Chains(heap.l) == Chains(old(heap.l)) - {Used(id)}
      ensures Chains(old(heap.l))[Used(id)] != [] ==> heap.l.lists[Free] != []
      ensures index.Stats() == old(index.Stats()).(evicts := old(index.Stats()).evicts + 1)
      ensures index.hitCount == old(index.hitCount) && index.missCount == old(index.missCount)
    {
      hide H.Heap.Valid, I.Index.Valid, L.Lru.Valid, NoLimbo, Indexed, AtRest, Listed, Backed, Chains, OthersKept, At,
           I.Index.Stats,
           Content, Payloads, Total;
      ghost var names, ents, l, cells := index.content, entries, heap.l, lru.cell.Keys;
      EntryFacts(id, pend);
      var key := entries[id].key;
      Release(id);
      var found := index.Remove(key);
      assert found;
      Release(id);
      assert entries == ents - {id};
      EvictIndexed(names, ents, id);
      EvictListed(ents, lru.q.order, cells, pend, id);
      EvictAtRest(ents, nextId, id);
      EvictBacked(ents, l, heap.l, pend, base, pool.Length, id);
      EvictContent(names, ents, l, heap.l, pool[..], base, pend, id);
    }

    lemma EntryFacts(id: int, pend: set<int>)
      requires Valid(pend, {id}) && id in entries
      ensures Used(id) in Chains(heap.l) && entries[id].extents == At(Chains(heap.l)[Used(id)], 0)
      ensures id in lru.cell && id !in pend && id !in lru.q.order && Owned(heap.l)
      ensures entries[id].key in index.content && |entries[id].key| <= MAX_KEY
    {
    }

    /** The entry is off the recency list: mark it as being evicted and drop it. */
    method TakeOut(id: int, ghost pend: set<int>)
      requires Parts() && Indexed(index.content, entries) && AtRest(entries, nextId, {})
      requires 0 < nextId && (forall j | j in pend :: 0 < j < nextId)
      requires Listed(entries, lru.q.order, lru.cell.Keys, pend, {id})
      requires Backed(entries, heap.l, pend, base, pool.Length)
      requires id in entries
      modifies `entries, heap, index, index.bucket, lru`cell
      ensures Valid(pend, {}) && entries == old(entries) - {id}
      ensures Abs(pend).content == old(Abs(pend)).content - {old(entries[id]).key}
      ensures OthersKept(old(heap.l), heap.l, Used(id))
      ensures Chains(old(heap.l))[Used(id)] != [] ==> heap.l.lists[Free] != []
      ensures index.Stats() == old(index.Stats()).(evicts := old(index.Stats()).evicts + 1)
      ensures index.hitCount == old(index.hitCount) && index.missCount == old(index.missCount)
    {
      hide I.Index.Stats, H.Heap.Valid, I.Index.Valid, L.Lru.Valid, NoLimbo, Indexed, AtRest, Listed, Backed, Chains,
           OthersKept,
           Content, Payloads, Total;
      RestOut(entries, nextId, id, 2, true);
      SameButMarks(index.content, entries, heap.l, pool[..], base, pend, id, 2, true);
      ListedByKeys(entries, Marked(entries, id, 2, true), lru.q.order, lru.cell.Keys, pend, {id});
      entries := entries[id := entries[id].(evicting := true)];
      FinishEvict(id, pend);
      assert entries == old(entries) - {id};
    }

    /** Evict the least recently used entry (a call without a key). */
    method Evict(ghost pend: set<int>) returns (err: S.Error, ghost id: int)
      requires Valid(pend, {})
      modifies this, heap, index, index.bucket, lru, lru.q, lru.ring, lru.ring.data
      ensures Valid(pend, {}) && S.Evict(old(Abs(pend)), Abs(pend), err) && nextId == old(nextId)
      ensures err == S.OK ==> id in old(entries) && id !in pend && entries == old(entries) - {id}
                              && OthersKept(old(heap.l), heap.l, Used(id))
                              && (Chains(old(heap.l))[Used(id)] != [] ==> heap.l.lists[Free] != [])
      ensures err != S.OK ==> heap.l == old(heap.l) && entries == old(entries)
      ensures index.Stats() == if err == S.OK then old(index.Stats()).(evicts := old(index.Stats()).evicts + 1)
                               else old(index.Stats())
      ensures index.hitCount == old(index.hitCount) && index.missCount == old(index.missCount)
    {
      hide H.Heap.Valid, I.Index.Valid, L.Lru.Valid, NoLimbo, Indexed, AtRest, Listed, Backed, Chains, OthersKept,
           Content, Payloads, Total, I.Index.Stats, Named, DropOldest, Order, Nameable;
      Shape(pend);
      ghost var before := lru.State();
      Evicting(before, entries);
      var e := lru.Evict();
      if e == 0 {
        return S.ESRCH, 0;
      }
      id := e;
      ListOut(entries, old(lru.q.order), lru.q.order, lru.cell.Keys, pend, e);
      TakeOut(e, pend);
      err := S.OK;
    }

    /** Evict the entry of a given key. */
    method EvictKey(key: Key) returns (err: S.Error)
      requires Valid({}, {}) && |key| <= MAX_KEY
      modifies this, heap, index, index.bucket, lru, lru.q, lru.ring, lru.ring.data
      ensures Valid({}, {}) && S.EvictKey(old(Abs({})), Abs({}), key, err)
      ensures index.Stats() == if err == S.OK then old(index.Stats()).(evicts := old(index.Stats()).evicts + 1)
                               else old(index.Stats())
      ensures index.hitCount == old(index.hitCount) && index.missCount == old(index.missCount)
    {
      hide H.Heap.Valid, I.Index.Valid, L.Lru.Valid, NoLimbo, AtRest, Listed, Backed, Chains, Content, Payloads,
           Total, Named, I.Index.Stats, Drop, Nameable;
      Shape({});
      var found, id := index.Get(key, false);
      if !found {
        ContentKeys(index.content, entries, heap.l, pool[..], base, {});
        return S.ENOENT;
      }
      ContentKeys(index.content, entries, heap.l, pool[..], base, {});
      ghost var ents := entries;
      RestOut(ents, nextId, id, 3, true);
      hide Indexed;
      entries := Marked(entries, id, entries[id].refcount + 1, true);
      var ok := lru.EvictEntry(id);
      assert ok;
      DropKeeps(old(lru.State()), id);
      DropListed(id, ents, old(lru.q.order));
      NamedDrop(old(lru.State()), ents, id);
      err := S.OK;
    }

    /** The end of an eviction by key: the caller's own reference goes first. */
    method DropListed(id: int, ghost ents: Entries, ghost order: seq<int>)
      requires Parts() && Indexed(index.content, ents) && AtRest(ents, nextId, {}) && 0 < nextId
      requires Listed(ents, order, lru.cell.Keys, {}, {}) && (forall x :: x in lru.q.order <==> x in order && x != id)
      requires Backed(ents, heap.l, {}, base, pool.Length) && id in ents && entries == Marked(ents, id, 3, true)
      modifies `entries, heap, index, index.bucket, lru`cell
      ensures Valid({}, {}) && entries == ents - {id}
      ensures Abs({}).content == Content(old(index.content), ents, old(heap.l), pool[..], base, {}) - {ents[id].key}
      ensures index.Stats() == old(index.Stats()).(evicts := old(index.Stats()).evicts + 1)
      ensures index.hitCount == old(index.hitCount) && index.missCount == old(index.missCount)
    {
      hide I.Index.Stats, H.Heap.Valid, I.Index.Valid, L.Lru.Valid, NoLimbo, Indexed, AtRest, Listed, Backed, Chains,
           Content,
           Payloads, Total;
      ghost var f := Marked(ents, id, 2, true);
      ListOut(ents, order, lru.q.order, lru.cell.Keys, {}, id);
      ListedByKeys(ents, f, lru.q.order, lru.cell.Keys, {}, {id});
      RestOut(ents, nextId, id, 2, true);
      SameButMarks(index.content, ents, heap.l, pool[..], base, {}, id, 2, true);
      MarkedTwice(ents, id, 3, 2, true);
      ListedFacts(ents, heap.l, lru.cell.Keys, lru.q.order, {}, {id}, base, pool.Length, id);
      Release(id);
      assert entries == f;
      FinishEvict(id, {});
    }

    /** Use an entry found in the index and read from it, holding a reference meanwhile. */
    method ReadEntry(id: int, hasBuf: bool, vbufsize: nat, offset: nat) returns (buf: seq<byte>, vsize: int)
      requires Valid({}, {}) && id in entries
      modifies `entries, heap, lru, lru.q, lru.ring, lru.ring.data
      ensures Valid({}, {}) && entries == old(entries) && heap.l == old(heap.l) && vsize == entries[id].vsize
      ensures EntryOk(entries[id], heap.l, Used(id), base, pool.Length)
      ensures buf == if hasBuf then Window(ValueOf(entries[id], heap.l, Used(id), pool[..], base), offset, vbufsize) else []
      ensures id in old(lru.cell)
      ensures id in old(lru.q.order) && lru.State() == Touch(old(lru.State()), id, L.R.LEN_RING_BUF)
    {
      hide H.Heap.Valid, I.Index.Valid, L.Lru.Valid, NoLimbo, AtRest, Listed, Backed, Chains, Payloads, Total,
           Stored, Room, Exts, At, AllInside, Indexed, Window;
      Shape({});
      OneEntry(entries, heap.l, {}, base, pool.Length, id);
      RestOut(entries, nextId, id, 3, false);
      MarkedTwice(entries, id, 3, 2, false);
      ListedFacts(entries, heap.l, lru.cell.Keys, lru.q.order, {}, {}, base, pool.Length, id);
      var e := entries[id];
      entries := Marked(entries, id, e.refcount + 1, false);
      TouchKeeps(lru.State(), id, L.R.LEN_RING_BUF);
      lru.Use(id);
      buf := PopulateValue(heap, pool, base, e.extents, e.vsize, hasBuf, vbufsize, offset, Used(id));
      vsize := e.vsize;
      Release(id);
      SameMembers(entries, old(lru.q.order), lru.q.order, lru.cell.Keys, {}, {});
    }

    /** Read (part of) the value of a key, which thereby counts as used. */
    method Get(key: Key, hasBuf: bool, vbufsize: nat, offset: nat) returns (found: bool, buf: seq<byte>, vsize: int)
      requires Valid({}, {}) && |key| <= MAX_KEY
      modifies this, heap, index, lru, lru.q, lru.ring, lru.ring.data
      ensures Valid({}, {})
      ensures S.Get(old(Abs({})), Abs({}), key, hasBuf, vbufsize, offset, found, buf, vsize)
      ensures |old(index.hitCount)| == |old(index.missCount)| == I.NSHARDS
      ensures var b := I.ShardIn(index.sharding, index.hash, key);
              && index.hitCount == (if found then I.Bumped(old(index.hitCount), b) else old(index.hitCount))
              && index.missCount == (if found then old(index.missCount) else I.Bumped(old(index.missCount), b))
      ensures index.Stats() == if found then old(index.Stats()).(hits := old(index.Stats()).hits + 1)
                               else old(index.Stats()).(misses := old(index.Stats()).misses + 1)
    {
      hide H.Heap.Valid, I.Index.Valid, L.Lru.Valid, NoLimbo, AtRest, Listed, Backed, Chains, Content, Payloads, Total,
           Named, Stored, Room, Exts, Indexed, Window, EntryOk, I.Index.Stats, I.ShardIn, Touch, Nameable;
      Shape({});
      ContentKeys(index.content, entries, heap.l, pool[..], base, {});
      buf, vsize := [], 0;
      var id;
      found, id := index.Get(key, true);
      if !found {
        return;
      }
      ContentAt(index.content, entries, heap.l, pool[..], base, {}, key);
      buf, vsize := ReadEntry(id, hasBuf, vbufsize, offset);
      NamedTouch(old(lru.State()), entries, id, L.R.LEN_RING_BUF);
    }

    /** Whether a key is there, and how long its value is; nothing else changes. */
    method Exists(key: Key) returns (found: bool, vsize: int)
      requires Valid({}, {}) && |key| <= MAX_KEY
      modifies `entries, heap, index, lru`cell
      ensures Valid({}, {}) && Abs({}) == old(Abs({}))
      ensures found <==> key in Abs({}).content
      ensures found ==> vsize == |Abs({}).content[key]|
      ensures index.Stats() == old(index.Stats())
      ensures index.hitCount == old(index.hitCount) && index.missCount == old(index.missCount)
    {
      hide H.Heap.Valid, I.Index.Valid, L.Lru.Valid, NoLimbo, AtRest, Listed, Backed, Chains, Content, Payloads, Total,
           Named, Stored, Room, Exts, Indexed, EntryOk, At;
      ContentKeys(index.content, entries, heap.l, pool[..], base, {});
      vsize := 0;
      var id;
      found, id := index.Get(key, false);
      if !found {
        return;
      }
      ContentAt(index.content, entries, heap.l, pool[..], base, {}, key);
      RestOut(entries, nextId, id, 3, false);
      MarkedTwice(entries, id, 3, 2, false);
      ListedFacts(entries, heap.l, lru.cell.Keys, lru.q.order, {}, {}, base, pool.Length, id);
      entries := Marked(entries, id, entries[id].refcount + 1, false);
      vsize := entries[id].vsize;
      Release(id);
    }

    lemma StartValue(id: int)
      requires Valid({id}, {}) && Chains(heap.l)[Used(id)] == []
      ensures Used(id) in Chains(heap.l) && 0 == At(Chains(heap.l)[Used(id)], 0)
      ensures SmallOk(heap.reg, heap.l, Used(id), 0) && Capacity(heap.l, Used(id)) == 0
    {
    }

    /** One allocation for the value being put; the entries do not notice. */
    method AllocMore(id: int, left: int, first: int, small: int) returns (got: int, newFirst: int, newSmall: int)
      requires Valid({id}, {}) && id !in entries && 0 < left && Used(id) in Chains(heap.l)
      requires first == At(Chains(heap.l)[Used(id)], 0) && SmallOk(heap.reg, heap.l, Used(id), small)
      modifies heap
      ensures Valid({id}, {}) && Abs({id}) == old(Abs({id})) && Used(id) in Chains(heap.l)
      ensures newFirst == At(Chains(heap.l)[Used(id)], 0) && OthersKept(old(heap.l), heap.l, Used(id))
      ensures 0 <= got && got == if FreeRoom(old(heap.l)) < left then FreeRoom(old(heap.l)) else left
      ensures got < left ==> Free in heap.l.lists && heap.l.lists[Free] == []
      ensures got < left ==> SmallOk(heap.reg, heap.l, Used(id), newSmall)
                             && Capacity(heap.l, Used(id)) == Capacity(old(heap.l), Used(id)) + got
      ensures got == left ==> Filled(heap.reg, heap.l, Used(id), Capacity(old(heap.l), Used(id)) + left, newSmall)
    {
      hide H.Heap.Valid, I.Index.Valid, L.Lru.Valid, NoLimbo, AtRest, Listed, Backed, Chains, Content, Payloads, Total,
           Named, Indexed, At, Filled, SmallOk, Capacity, OthersKept, FreeRoom;
      HeapFacts();
      ghost var popped;
      got, newFirst, newSmall, popped := heap.Alloc(left, first, small, Used(id));
      HeapFacts();
      PendBacked(entries, old(heap.l), heap.l, {id}, {id}, base, pool.Length, id);
      PendContent(index.content, entries, old(heap.l), heap.l, pool[..], base, {id}, {id}, id);
    }

    lemma HeapFacts()
      requires heap.Valid(Limbo)
      ensures Owned(heap.l) && heap.reg.Valid() && Tiled(heap.reg, heap.l.sizes) && Aligned(heap.reg, heap.l.sizes)
    {
    }

    lemma RegionValid(pend: set<int>)
      requires Valid(pend, {})
      ensures heap.reg.Valid()
    {
    }

    /** Evict one entry to make room; the chain being built stays as it is. */
    method EvictForPut(id: int, ghost first: int, ghost small: int, ghost n: nat, ghost b: Found, ghost vsize: int)
      returns (evicted: bool, ghost n': nat)
      requires Valid({id}, {}) && id !in entries && Used(id) in Chains(heap.l)
      requires first == At(Chains(heap.l)[Used(id)], 0) && SmallOk(heap.reg, heap.l, Used(id), small)
      requires S.WellFormed(b.s) && S.EvictsPrefix(b.s, Abs({id}), n) && EvictionsNeeded(heap.reg, b, n, vsize)
      requires Indexed(b.names, b.ents) && Remains(b.l, b.ents, heap.l, entries)
      requires Free in heap.l.lists && heap.l.lists[Free] == [] && Capacity(heap.l, Used(id)) < vsize
      modifies this, heap, index, index.bucket, lru, lru.q, lru.ring, lru.ring.data
      ensures Valid({id}, {}) && id !in entries && Used(id) in Chains(heap.l) && nextId == old(nextId)
      ensures Remains(b.l, b.ents, heap.l, entries) && EvictionsNeeded(heap.reg, b, n', vsize)
      ensures first == At(Chains(heap.l)[Used(id)], 0) && SmallOk(heap.reg, heap.l, Used(id), small)
      ensures Capacity(heap.l, Used(id)) == Capacity(old(heap.l), Used(id))
      ensures S.EvictsPrefix(b.s, Abs({id}), n')
      ensures evicted ==> n' == n + 1 && |entries| < |old(entries)|
      ensures !evicted ==> n' == n && entries == old(entries) && heap.l == old(heap.l) && Abs({id}).Order() == []
      ensures index.Stats() == old(index.Stats()).(evicts := old(index.Stats()).evicts + n' - n)
      ensures index.hitCount == old(index.hitCount) && index.missCount == old(index.missCount)
    {
      hide H.Heap.Valid, I.Index.Valid, L.Lru.Valid, NoLimbo, AtRest, Listed, Backed, Chains, Content, Payloads, Total,
           Named, Indexed, At, SmallOk, Capacity, OthersKept, S.EvictsPrefix, S.EvictOne, S.WellFormed,
           I.Index.Stats, Remains, Short, S.KeysLeft,
           EvictionsNeeded;
      HeapFacts();
      ghost var before := Abs({id});
      S.EvictsLeaves(b.s, before, n);
      ContentKeys(index.content, entries, heap.l, pool[..], base, {id});
      Squeezed(heap.reg, b.names, b.ents, b.l, index.content, entries, heap.l, id, base, pool.Length, vsize);
      var err;
      ghost var gone;
      err, gone := Evict({id});
      n' := n;
      if err != S.OK {
        return false, n;
      }
      ChainSteady(heap.reg, old(heap.l), heap.l, Used(gone), Used(id), small);
      RemainsAfterEvict(b.l, b.ents, old(heap.l), heap.l, old(entries), gone);
      S.EvictsOneMore(b.s, before, n);
      S.EvictsLeaves(b.s, Abs({id}), n + 1);
      OneMoreNeeded(heap.reg, b, n, vsize);
      SmallerMap(old(entries), gone);
      evicted, n' := true, n + 1;
    }

    /** Chain blocks for a value, evicting the oldest entries while the heap is exhausted. */
    method AllocValue(id: int, vsize: nat, ghost b: Found) returns (ok: bool, first: int, ghost small: int,
                      ghost n: nat)
      requires Valid({id}, {}) && id !in entries && Chains(heap.l)[Used(id)] == []
      requires b == Found(Abs({id}), heap.l, index.content, entries) && S.WellFormed(b.s)
      modifies this, heap, index, index.bucket, lru, lru.q, lru.ring, lru.ring.data
      ensures Valid({id}, {}) && id !in entries && nextId == old(nextId)
      ensures ChainAt(heap.l, Used(id), first) && EvictionsNeeded(heap.reg, b, n, vsize)
      ensures S.EvictsPrefix(b.s, Abs({id}), n) && (!ok ==> Abs({id}).Order() == [])
      ensures vsize <= FreeRoom(b.l) ==> ok && n == 0
      ensures if ok then Fitted(heap.reg, heap.l, Used(id), vsize, small) else TooLong(heap.reg, vsize)
      ensures index.Stats() == old(index.Stats()).(evicts := old(index.Stats()).evicts + n)
      ensures index.hitCount == old(index.hitCount) && index.missCount == old(index.missCount)
    {
      hide H.Heap.Valid, I.Index.Valid, L.Lru.Valid, NoLimbo, AtRest, Listed, Backed, Chains, Content, Payloads, Total,
           Named, Indexed, At, Filled, SmallOk, Capacity, OthersKept, S.EvictsPrefix, FreeRoom, Remains, EvictionsNeeded,
           GuaranteedRoom, Parts;
      var w := Used(id);
      RemainsAll(b.l, b.ents);
      NoneNeeded(heap.reg, b, vsize);
      RegionValid({id});
      first, small, n, ok := 0, 0, 0, true;
      var smallExtent, left := 0, vsize;
      StartValue(id);
      S.EvictsNone(b.s);
      while left != 0
        invariant Valid({id}, {}) && id !in entries && nextId == old(nextId) && w in Chains(heap.l)
        invariant first == At(Chains(heap.l)[w], 0) && 0 <= left <= vsize && small == smallExtent
        invariant left > 0 ==> SmallOk(heap.reg, heap.l, w, smallExtent)
        invariant left > 0 ==> Capacity(heap.l, w) == vsize - left
        invariant left == 0 && vsize > 0 ==> Filled(heap.reg, heap.l, w, vsize, smallExtent)
        invariant index.Stats() == old(index.Stats()).(evicts := old(index.Stats()).evicts + n)
        invariant index.hitCount == old(index.hitCount) && index.missCount == old(index.missCount)
        invariant S.EvictsPrefix(b.s, Abs({id}), n) && Remains(b.l, b.ents, heap.l, entries)
        invariant EvictionsNeeded(heap.reg, b, n, vsize)
        invariant vsize == 0 || (left == vsize && n == 0) ==> heap.l == b.l
        invariant vsize <= FreeRoom(b.l) ==> n == 0 && (left == 0 || left == vsize)
        decreases |entries|, left
      {
        var got;
        ghost var l1 := heap.l;
        got, first, smallExtent := AllocMore(id, left, first, smallExtent);
        RemainsAfterAlloc(b.l, b.ents, l1, heap.l, entries, id);
        small := smallExtent;
        if got == 0 {
          var evicted;
          evicted, n := EvictForPut(id, first, smallExtent, n, b, vsize);
          if !evicted {
            NoRoom(id);
            ok := false;
            return;
          }
        }
        left := left - got;
      }
      if vsize > 0 {
        Fits(id, vsize, small);
      }
    }

    /** Nothing left to evict and nothing free: the chain being built is all there is. */
    lemma NoRoom(id: int)
      requires Valid({id}, {}) && Abs({id}).Order() == [] && Free in heap.l.lists && heap.l.lists[Free] == []
      ensures heap.reg.Valid() && GuaranteedRoom(heap.reg) <= Capacity(heap.l, Used(id))
    {
      hide H.Heap.Valid, I.Index.Valid, L.Lru.Valid, AtRest, Listed, Content, Payloads, Total, Tiled, Aligned, Owned,
           Capacity, GuaranteedRoom, Indexed, EntryOk, Named, Footprint;
      HeapFacts();
      NothingListed({id});
      assert Chains(heap.l).Keys == {Used(id)};
      FullChain(heap.reg, heap.l, Used(id));
    }

    lemma Fits(id: int, vsize: int, small: int)
      requires Valid({id}, {}) && heap.reg.extentSize > 0 && Filled(heap.reg, heap.l, Used(id), vsize, small)
      ensures vsize <= heap.reg.hi - heap.reg.lo - HFER_SIZE
    {
      ChainBound(heap.reg, heap.l, Used(id));
    }

    /** A new cache entry: an empty chain and a NULL recency cell. */
    method BeginPut() returns (id: int)
      requires Valid({}, {})
      modifies `nextId, heap, lru`cell
      ensures id !in entries && Valid({id}, {}) && Abs({id}) == old(Abs({})) && Chains(heap.l)[Used(id)] == []
      ensures FreeRoom(heap.l) == FreeRoom(old(heap.l)) && Held(heap.l) == Held(old(heap.l))
    {
      hide H.Heap.Valid, I.Index.Valid, L.Lru.Valid, NoLimbo, AtRest, Chains, Content, Payloads, Total,
           Named, Indexed, At, Backed, FreeRoom;
      id := nextId;
      FreshId(id);
      nextId := nextId + 1;
      heap.OpenChain(Used(id));
      OpenSame(old(heap.l), heap.l, Used(id));
      lru.NewCell(id);
      PendBacked(entries, old(heap.l), heap.l, {}, {id}, base, pool.Length, id);
      PendContent(index.content, entries, old(heap.l), heap.l, pool[..], base, {}, {id}, id);
      RestLater(entries, id, nextId);
    }

    lemma FreshId(id: int)
      requires Valid({}, {}) && id == nextId
      ensures id !in entries && Used(id) !in Chains(heap.l) && id !in lru.q.order && Owned(heap.l) && 0 < id
    {
    }

    /** The put failed: its blocks and its entry are freed. */
    method Abandon(id: int, first: int)
      requires Valid({id}, {}) && id !in entries && Used(id) in Chains(heap.l)
      requires first == At(Chains(heap.l)[Used(id)], 0)
      modifies heap, lru`cell
      ensures Valid({}, {}) && Abs({}) == old(Abs({id}))
    {
      hide H.Heap.Valid, I.Index.Valid, L.Lru.Valid, NoLimbo, AtRest, Chains, Content, Payloads, Total,
           Named, Indexed, At, Backed, OthersKept;
      HeapFacts();
      heap.FreeChain(first, Used(id));
      lru.ForgetCell(id);
      PendBacked(entries, old(heap.l), heap.l, {id}, {}, base, pool.Length, id);
      PendContent(index.content, entries, old(heap.l), heap.l, pool[..], base, {id}, {}, id);
    }

    /** Copy the value into its chain. */
    method StoreValue(id: int, first: int, value: seq<byte>, ghost small: int) returns (reached: bool)
      requires Valid({id}, {}) && id !in entries && ChainAt(heap.l, Used(id), first)
      requires Fitted(heap.reg, heap.l, Used(id), |value|, small)
      modifies pool
      ensures Valid({id}, {}) && Abs({id}) == old(Abs({id}))
      ensures EntryOk(Entry([], |value|, first, 1, false), heap.l, Used(id), base, pool.Length)
      ensures Stored(pool[..], base, Exts(heap.l, Used(id)), |value|) == value
      ensures var x := Exts(heap.l, Used(id)); reached <==> x == [] || Room(x[..|x| - 1]) < |value|
      ensures !Wasteful(heap.reg) ==> reached
    {
      hide H.Heap.Valid, I.Index.Valid, L.Lru.Valid, NoLimbo, AtRest, Listed, Chains, Content, Payloads, Total,
           Named, Indexed, At, Backed, OthersKept, SameTags, Exts, Stored, Room, OnlyIn, AllInside, AllApart, Filled, Wasteful;
      HeapFacts();
      var w := Used(id);
      ChainExtents(heap.reg, heap.l, w, base, pool.Length);
      FilledRoom(heap.reg, heap.l, w, value, small);
      reached := PopulateExtents(heap, pool, base, first, value, w);
      ScatterContent(heap.reg, index.content, entries, heap.l, old(pool[..]), pool[..], base, {id}, id);
    }

    lemma ReadyToList(id: int, ents: Entries)
      requires lru.Valid([]) && Listed(ents, lru.q.order, lru.cell.Keys, {id}, {})
      ensures id !in lru.q.order && id in lru.cell && lru.cell[id] == 0
    {
    }

    /** Index the entry and append it to the recency list; an existing key is an error. */
    method Publish(id: int, first: int, key: Key, value: seq<byte>) returns (err: S.Error)
      requires Valid({id}, {}) && id !in entries && |key| <= MAX_KEY && 0 < id < nextId
      requires EntryOk(Entry([], |value|, first, 1, false), heap.l, Used(id), base, pool.Length)
      requires Stored(pool[..], base, Exts(heap.l, Used(id)), |value|) == value
      modifies this, heap, index, index.bucket, lru, lru.q
      ensures Valid({}, {})
      ensures if key in old(Abs({id})).content then err == S.EEXIST && Abs({}) == old(Abs({id}))
              else err == S.OK && S.Adds(old(Abs({id})), Abs({}), key, value)
      ensures index.Stats() == if err == S.OK then old(index.Stats()).(puts := old(index.Stats()).puts + 1)
                               else old(index.Stats())
      ensures index.hitCount == old(index.hitCount) && index.missCount == old(index.missCount)
    {
      hide H.Heap.Valid, I.Index.Valid, L.Lru.Valid, NoLimbo, AtRest, Listed, Chains, Content, Payloads, Total,
           Named, Indexed, At, Backed, OthersKept, Exts, Stored, Room, AllInside, I.Index.Stats, Nameable;
      Shape({id});
      ContentKeys(index.content, entries, heap.l, pool[..], base, {id});
      var e := index.Insert(key, id);
      if e != 0 {
        Abandon(id, first);
        return S.EEXIST;
      }
      err := S.OK;
      ghost var ents, names := entries, old(index.content);
      var entry := Entry(key, |value|, first, 2, false);
      entries := entries[id := entry];
      ReadyToList(id, ents);
      lru.Insert(id);
      CommitRest(ents, nextId, id, entry);
      CommitIndexed(names, ents, id, entry);
      assert lru.cell.Keys == old(lru.cell.Keys);
      CommitListed(ents, old(lru.q.order), lru.cell.Keys, id, entry);
      CommitBacked(ents, heap.l, base, pool.Length, id, entry);
      CommitContent(names, ents, heap.l, pool[..], base, id, entry, value);
      NamedAdd(old(lru.State()), ents, id, entry);
    }

    /** Store a value under a new key, evicting the oldest entries as needed. */
    method Put(key: Key, value: seq<byte>) returns (err: S.Error, ghost n: nat)
      requires Valid({}, {}) && |key| <= MAX_KEY
      modifies this, heap, index, index.bucket, lru, lru.q, lru.ring, lru.ring.data, pool
      ensures Valid({}, {}) && S.Put(old(Abs({})), Abs({}), size, key, value, err, n)
      ensures err == S.ENOSPC ==> TooLong(heap.reg, |value|)
      ensures heap.reg.hi - heap.reg.lo - HFER_SIZE < |value| ==> err == S.ENOSPC
      ensures index.Stats() == old(index.Stats()).(evicts := old(index.Stats()).evicts + n,
                                                   puts := old(index.Stats()).puts + if err == S.OK then 1 else 0)
      ensures index.hitCount == old(index.hitCount) && index.missCount == old(index.missCount)
      ensures EvictionsNeeded(heap.reg, Found(old(Abs({})), old(heap.l), old(index.content), old(entries)), n, |value|)
      ensures |value| <= size && |value| <= FreeRoom(old(heap.l)) ==>
                if key in old(Abs({})).content then err == S.EEXIST && Abs({}) == old(Abs({}))
                else err == S.OK && S.Adds(old(Abs({})), Abs({}), key, value)
    {
      hide H.Heap.Valid, I.Index.Valid, L.Lru.Valid, NoLimbo, AtRest, Listed, Chains, Content, Payloads, Total,
           Named, Indexed, At, Backed, OthersKept, Exts, Stored, S.WellFormed, Filled, FreeRoom, EvictionsNeeded, Held,
           I.Index.Stats, Order;
      HeapFacts();
      n := 0;
      NoneNeeded(heap.reg, Found(Abs({}), heap.l, index.content, entries), |value|);
      if |value| > size {
        return S.ENOSPC, 0;
      }
      Shape({});
      var id := BeginPut();
      ghost var b := Found(Abs({id}), heap.l, index.content, entries);
      ghost var c := Found(old(Abs({})), old(heap.l), index.content, entries);
      var ok, first;
      ghost var small;
      ok, first, small, n := AllocValue(id, |value|, b);
      NeededSame(heap.reg, b, c, n, |value|);
      S.EvictsLeaves(old(Abs({})), Abs({id}), n);
      if !ok {
        Abandon(id, first);
        return S.ENOSPC, n;
      }
      var _ := StoreValue(id, first, value, small);
      err := Publish(id, first, key, value);
    }

    /** Query a statistic. */
    method GetStat(stat: Stat) returns (val: int)
      requires Valid({}, {})
      ensures val == match stat
                     case PUT => index.Stats().puts
                     case GET => index.Stats().hits + index.Stats().misses
                     case HIT => index.Stats().hits
                     case MISS => index.Stats().misses
                     case EVICT => index.Stats().evicts
                     case ENTRIES => |Abs({}).content|
                     case POOL_SIZE_USED => Total(Payloads(heap.l))
                     case HEAP_ENTRIES => heap.entries
    {
      hide H.Heap.Valid, I.Index.Valid, L.Lru.Valid, NoLimbo, AtRest, Listed, Chains, Content, Payloads, Total,
           Named, Indexed, Backed, I.Index.Stats;
      ContentKeys(index.content, entries, heap.l, pool[..], base, {});
      SameSize(index.content, Abs({}).content);
      match stat {
        case PUT => val := index.GetStat(I.PUT);
        case GET =>
          var hits := index.GetStat(I.HIT);
          var misses := index.GetStat(I.MISS);
          val := hits + misses;
        case HIT => val := index.GetStat(I.HIT);
        case MISS => val := index.GetStat(I.MISS);
        case EVICT => val := index.GetStat(I.EVICT);
        case ENTRIES => val := index.GetStat(I.ENTRIES);
        case POOL_SIZE_USED => val := heap.sizeUsed;
        case HEAP_ENTRIES => val := heap.entries;
      }
    }

    /** Once every key is gone, the region is one free block again and the index holds no node. */
    lemma EmptyCache()
      requires Valid({}, {}) && Abs({}).Order() == []
      ensures heap.l.sizes == map[heap.reg.lo := heap.reg.hi - heap.reg.lo] && heap.l.lists[Free] == [heap.reg.lo]
      ensures heap.sizeUsed == 0 && heap.entries == 1
      ensures |index.bucket| == |index.leafCount| == |index.putCount| == |index.evictCount| == I.NSHARDS
      ensures forall b | 0 <= b < I.NSHARDS ::
                && index.bucket[b].root.Null? && index.bucket[b].nodeCount == 0
                && index.leafCount[b] == 0 && index.putCount[b] == index.evictCount[b]
    {
      hide I.Index.Valid, L.Lru.Valid, AtRest, Listed, Content, EntryOk, Named, OwnKeys, Total, Indexed, Backed, Owned,
           Inv, NoLimbo, Payloads;
      NothingListed({});
      NoEntries(index.content, entries, heap.l, base, pool.Length);
      HeapFacts();
      AllFree(heap.l);
      EmptyHeap(heap.reg, heap.hdr, heap.ftr, heap.first, heap.l);
      NothingHeld(Payloads(heap.l));
      index.EmptyIndex();
    }

    /** Evict until that fails. */
    method EvictAll()
      requires Valid({}, {})
      modifies this, heap, index, index.bucket, lru, lru.q, lru.ring, lru.ring.data
      ensures Valid({}, {}) && Abs({}).Order() == [] && heap.entries == 1 && heap.sizeUsed == 0
      ensures heap.l.sizes == map[heap.reg.lo := heap.reg.hi - heap.reg.lo]
      ensures |index.bucket| == |index.leafCount| == I.NSHARDS
      ensures forall b | 0 <= b < I.NSHARDS :: index.bucket[b].nodeCount == 0 && index.leafCount[b] == 0
    {
      hide Parts, Indexed, AtRest, Listed, Backed, OthersKept, Abs;
      var err := S.OK;
      ghost var id := 0;
      while err == S.OK
        invariant Valid({}, {}) && (err != S.OK ==> Abs({}).Order() == [])
        decreases |entries|, if err == S.OK then 1 else 0
      {
        ghost var before := entries;
        err, id := Evict({});
        if err == S.OK {
          SmallerMap(before, id);
        }
      }
      EmptyCache();
    }

    /** The list has exactly the entries, with keys of their own, and the specification's state is in order. */
    lemma Shape(pend: set<int>)
      requires Valid(pend, {})
      ensures Nameable(lru.State(), entries) && LruSpec.WellFormed(lru.State())
      ensures forall x :: x in lru.q.order <==> x in entries
      ensures forall x | x in entries :: x in lru.cell && x !in pend
      ensures S.WellFormed(Abs(pend))
    {
      hide Content;
      lru.Shape([]);
      ContentKeys(index.content, entries, heap.l, pool[..], base, pend);
      NamedWellFormed(lru.State(), entries, Abs(pend).content);
    }

    lemma NothingListed(pend: set<int>)
      requires Valid(pend, {}) && Abs(pend).Order() == []
      ensures forall x :: x !in entries
    {
      hide Minus, Content;
      Shape(pend);
      NamedOrder(lru.State(), entries);
      OrderFacts(lru.State());
    }
  }
}
