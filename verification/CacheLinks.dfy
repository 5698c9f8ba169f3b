/** How the index, the entries, the heap chains and the recency list of a cache belong together. */
module CacheLinks {
  import opened Bytes
  import opened HeapLayout
  import opened HeapInvariant
  import opened HeapConservation
  import opened Values

  datatype Entry = Entry(key: Key, vsize: int, extents: int, refcount: int, evicting: bool)

  type Names = map<Key, int>
  type Entries = map<int, Entry>

  /** Every indexed key names an entry with that key, and every entry is indexed under its key. */
  ghost predicate Indexed(names: Names, ents: Entries) {
    && (forall k | k in names :: names[k] in ents && ents[names[k]].key == k)
    && (forall id | id in ents ::
          |ents[id].key| <= MAX_KEY && ents[id].key in names && names[ents[id].key] == id)
  }

  /** At rest each entry has two references, the index's and the replacement policy's. */
  ghost predicate AtRest(ents: Entries, nextId: int, out: set<int>) {
    forall id | id in ents :: 0 < id < nextId && (id !in out ==> ents[id].refcount == 2 && !ents[id].evicting)
  }

  /** The listed entries are exactly the indexed ones, but for those on their way out. */
  ghost predicate Listed(ents: Entries, order: seq<int>, cells: set<int>, pend: set<int>, out: set<int>) {
    && (forall id :: id in order <==> id in ents && id !in out)
    && cells == ents.Keys + pend && ents.Keys !! pend
  }

  /** The allocated blocks are exactly the chains of the entries and of the values being put. */
  ghost predicate Backed(ents: Entries, l: Layout, pend: set<int>, base: int, poolSize: int) {
    && (forall w | w in Chains(l) :: w.Used? && w.id in ents.Keys + pend)
    && (forall id | id in ents.Keys + pend :: Used(id) in Chains(l))
    && (forall id | id in ents :: EntryOk(ents[id], l, Used(id), base, poolSize))
  }

  ghost predicate EntryOk(e: Entry, l: Layout, w: Owner, base: int, poolSize: int) {
    && w in Chains(l) && e.extents == At(Chains(l)[w], 0)
    && 0 <= e.vsize <= Room(Exts(l, w)) && AllInside(Exts(l, w), base, poolSize)
  }

  // ---------- the map the cache stands for

  ghost function ValueOf(e: Entry, l: Layout, w: Owner, pool: seq<byte>, base: int): seq<byte>
    requires EntryOk(e, l, w, base, |pool|)
  {
    Stored(pool, base, Exts(l, w), e.vsize)
  }

  ghost function Content(names: Names, ents: Entries, l: Layout, pool: seq<byte>, base: int,
                         pend: set<int>): map<Key, seq<byte>>
    requires Indexed(names, ents) && Backed(ents, l, pend, base, |pool|)
  {
    map k | k in names :: ValueOf(ents[names[k]], l, Used(names[k]), pool, base)
  }

  // ---------- what the others take

  ghost function IdsOf(ents: Entries, keys: set<Key>): set<int> {
    set i | i in ents && ents[i].key in keys
  }

  /** The bytes of the region that the values of these keys leave cannot be relied on to hold `vsize` bytes. */
  ghost predicate Short(r: Region, l: Layout, ents: Entries, keys: set<Key>, vsize: int)
    requires 0 < r.MinBlock()
  {
    RoomIn(r, r.hi - r.lo - Footprint(l, IdsOf(ents, keys))) < vsize
  }

  lemma ShortSame(l: Layout, m: Layout, ents: Entries)
    requires Held(m) == Held(l)
    ensures forall r: Region, keys, vsize | 0 < r.MinBlock() :: Short(r, m, ents, keys, vsize) == Short(r, l, ents, keys, vsize)
  {
    hide Footprint, RoomIn, IdsOf;
    forall ids ensures Footprint(m, ids) == Footprint(l, ids) { SameFootprint(l, m, ids); }
  }

  /** The entries still there are as they were, with their blocks. */
  ghost predicate Remains(l: Layout, ents: Entries, m: Layout, f: Entries) {
    (forall i | i in f :: i in ents && ents[i] == f[i]) && HeldBy(m, f.Keys) == HeldBy(l, f.Keys)
  }

  lemma RemainsAfterAlloc(l: Layout, ents: Entries, m: Layout, n: Layout, f: Entries, id: int)
    requires Remains(l, ents, m, f) && OthersKept(m, n, Used(id)) && id !in f
    ensures Remains(l, ents, n, f)
  {
    HeldByKept(m, n, Used(id), f.Keys);
  }

  lemma RemainsAfterEvict(l: Layout, ents: Entries, m: Layout, n: Layout, f: Entries, id: int)
    requires Remains(l, ents, m, f) && OthersKept(m, n, Used(id))
    ensures Remains(l, ents, n, f - {id})
  {
    HeldByFewer(l, m, f.Keys, (f - {id}).Keys);
    HeldByKept(m, n, Used(id), (f - {id}).Keys);
  }

  lemma IdsLeft(names: Names, ents: Entries, names': Names, f: Entries)
    requires Indexed(names, ents) && Indexed(names', f) && (forall i | i in f :: i in ents && ents[i] == f[i])
    ensures IdsOf(ents, names'.Keys) == f.Keys
  {
    forall i | i in ents && ents[i].key in names' ensures i in f {
      var j := names'[ents[i].key];
      assert j in f && ents[j].key == ents[i].key;
      assert names[ents[i].key] == i && names[ents[j].key] == j;
    }
    forall i | i in f ensures i in IdsOf(ents, names'.Keys) { assert f[i].key in names'; }
  }

  /** With nothing free, the value being put holds at least the room that the entries leave. */
  lemma Squeezed(r: Region, names: Names, ents: Entries, l: Layout, names': Names, f: Entries, m: Layout, id: int,
                 base: int,
                 poolSize: int, vsize: int)
    requires Indexed(names, ents) && Indexed(names', f) && Remains(l, ents, m, f) && Backed(f, m, {id}, base, poolSize)
    requires r.Valid() && Tiled(r, m.sizes) && Owned(m) && NoLimbo(m) && m.lists[Free] == [] && id !in f
    requires Capacity(m, Used(id)) < vsize
    ensures Short(r, l, ents, names'.Keys, vsize)
  {
    hide Tiled, Owned, NoLimbo, Chains, EntryOk, Capacity, RoomIn, HeldBy, Indexed, Footprint, IdsOf;
    IdsLeft(names, ents, names', f);
    SameFootprint(l, m, f.Keys);
    Exhausted(r, m, Used(id), f.Keys);
  }

  // ---------- an eviction

  lemma EvictIndexed(names: Names, ents: Entries, id: int)
    requires Indexed(names, ents) && id in ents
    ensures Indexed(names - {ents[id].key}, ents - {id})
  {
  }

  lemma EvictListed(ents: Entries, order: seq<int>, cells: set<int>, pend: set<int>, id: int)
    requires Listed(ents, order, cells, pend, {id}) && id in ents
    ensures Listed(ents - {id}, order, cells - {id}, pend, {})
  {
  }

  lemma EvictAtRest(ents: Entries, nextId: int, id: int)
    requires AtRest(ents, nextId, {id})
    ensures AtRest(ents - {id}, nextId, {})
  {
  }

  /** A chain of another owner is untouched by what happens to `w`. */
  lemma EntryKept(e: Entry, l: Layout, m: Layout, w: Owner, v: Owner, base: int, poolSize: int)
    requires Owned(l) && OthersKept(l, m, w) && v.Used? && v != w && EntryOk(e, l, v, base, poolSize)
    ensures EntryOk(e, m, v, base, poolSize) && Exts(m, v) == Exts(l, v)
  {
    ExtsKept(l, m, w, v);
  }

  lemma EvictBacked(ents: Entries, l: Layout, m: Layout, pend: set<int>, base: int, poolSize: int, id: int)
    requires Backed(ents, l, pend, base, poolSize) && Owned(l) && id in ents && id !in pend
    requires OthersKept(l, m, Used(id)) && Chains(m) == Chains(l) - {Used(id)}
    ensures Backed(ents - {id}, m, pend, base, poolSize)
  {
    hide EntryOk, OthersKept, Chains;
    forall j | j in ents - {id} ensures EntryOk(ents[j], m, Used(j), base, poolSize) {
      EntryKept(ents[j], l, m, Used(id), Used(j), base, poolSize);
    }
  }

  /** An eviction deletes one key and leaves every other value as it was. */
  lemma EvictContent(names: Names, ents: Entries, l: Layout, m: Layout, pool: seq<byte>, base: int, pend: set<int>,
                     id: int)
    requires Indexed(names, ents) && Backed(ents, l, pend, base, |pool|) && Owned(l) && id in ents && id !in pend
    requires OthersKept(l, m, Used(id)) && Chains(m) == Chains(l) - {Used(id)}
    requires Indexed(names - {ents[id].key}, ents - {id}) && Backed(ents - {id}, m, pend, base, |pool|)
    ensures Content(names - {ents[id].key}, ents - {id}, m, pool, base, pend)
            == Content(names, ents, l, pool, base, pend) - {ents[id].key}
  {
    hide OthersKept, Chains;
    var k0 := ents[id].key;
    forall k | k in names && k != k0
      ensures ValueOf(ents[names[k]], m, Used(names[k]), pool, base) == ValueOf(ents[names[k]], l, Used(names[k]), pool, base)
    {
      EntryKept(ents[names[k]], l, m, Used(id), Used(names[k]), base, |pool|);
    }
  }

  lemma ListOut(ents: Entries, order: seq<int>, order': seq<int>, cells: set<int>, pend: set<int>, id: int)
    requires Listed(ents, order, cells, pend, {}) && (forall x :: x in order' <==> x in order && x != id)
    ensures Listed(ents, order', cells, pend, {id})
  {
  }

  lemma RestOut(ents: Entries, nextId: int, id: int, refcount: int, evicting: bool)
    requires AtRest(ents, nextId, {}) && id in ents
    ensures ents[id].refcount == 2 && !ents[id].evicting && AtRest(Marked(ents, id, refcount, evicting), nextId, {id})
  {
  }

  /** An entry with other marks. */
  function Marked(ents: Entries, id: int, refcount: int, evicting: bool): Entries
    requires id in ents
  {
    ents[id := ents[id].(refcount := refcount, evicting := evicting)]
  }

  /** Reference counts and flags do not matter to the map. */
  lemma SameButMarks(names: Names, ents: Entries, l: Layout, pool: seq<byte>, base: int, pend: set<int>, id: int,
                     refcount: int, evicting: bool)
    requires Indexed(names, ents) && Backed(ents, l, pend, base, |pool|) && id in ents
    ensures var f := Marked(ents, id, refcount, evicting);
            && f.Keys == ents.Keys && Indexed(names, f) && Backed(f, l, pend, base, |pool|)
            && Content(names, f, l, pool, base, pend) == Content(names, ents, l, pool, base, pend)
  {
    var f := Marked(ents, id, refcount, evicting);
    assert f.Keys == ents.Keys;
    hide Chains, Exts, Stored, Room, AllInside;
    forall j | j in f ensures EntryOk(f[j], l, Used(j), base, |pool|) {
      assert EntryOk(ents[j], l, Used(j), base, |pool|);
    }
  }

  lemma ListedByKeys(ents: Entries, f: Entries, order: seq<int>, cells: set<int>, pend: set<int>, out: set<int>)
    requires Listed(ents, order, cells, pend, out) && f.Keys == ents.Keys
    ensures Listed(f, order, cells, pend, out)
  {
  }

  lemma ContentKeys(names: Names, ents: Entries, l: Layout, pool: seq<byte>, base: int, pend: set<int>)
    requires Indexed(names, ents) && Backed(ents, l, pend, base, |pool|)
    ensures Content(names, ents, l, pool, base, pend).Keys == names.Keys
    ensures forall k | k in names :: names[k] in ents && ents[names[k]].key == k
  {
  }

  lemma MarkedTwice(ents: Entries, id: int, r: int, refcount: int, evicting: bool)
    requires id in ents
    ensures id in Marked(ents, id, r, evicting)
    ensures Marked(ents, id, r, evicting)[id := Marked(ents, id, r, evicting)[id].(refcount := refcount)]
            == Marked(ents, id, refcount, evicting)
    ensures refcount == ents[id].refcount && evicting == ents[id].evicting ==> Marked(ents, id, refcount, evicting) == ents
    ensures Marked(ents, id, refcount, evicting) - {id} == ents - {id}
  {
  }

  lemma ListedFacts(ents: Entries, l: Layout, cells: set<int>, order: seq<int>, pend: set<int>, out: set<int>,
                    base: int,
                    poolSize: int, id: int)
    requires Listed(ents, order, cells, pend, out) && Backed(ents, l, pend, base, poolSize) && id in ents
    ensures id in cells && id !in pend && Used(id) in Chains(l) && ents[id].extents == At(Chains(l)[Used(id)], 0)
    ensures id in out ==> id !in order
  {
    assert EntryOk(ents[id], l, Used(id), base, poolSize);
  }

  lemma ContentAt(names: Names, ents: Entries, l: Layout, pool: seq<byte>, base: int, pend: set<int>, key: Key)
    requires Indexed(names, ents) && Backed(ents, l, pend, base, |pool|) && key in names
    ensures var id := names[key];
            && id in ents && ents[id].key == key && EntryOk(ents[id], l, Used(id), base, |pool|)
            && key in Content(names, ents, l, pool, base, pend)
            && Content(names, ents, l, pool, base, pend)[key] == Stored(pool, base, Exts(l, Used(id)), ents[id].vsize)
            && |Stored(pool, base, Exts(l, Used(id)), ents[id].vsize)| == ents[id].vsize
  {
    var id := names[key];
    assert EntryOk(ents[id], l, Used(id), base, |pool|);
    GatherRoom(pool, base, Exts(l, Used(id)));
  }

  lemma SameMembers(ents: Entries, order: seq<int>, order': seq<int>, cells: set<int>, pend: set<int>, out: set<int>)
    requires Listed(ents, order, cells, pend, out) && (forall x :: x in order' <==> x in order)
    ensures Listed(ents, order', cells, pend, out)
  {
  }

  lemma OneEntry(ents: Entries, l: Layout, pend: set<int>, base: int, poolSize: int, id: int)
    requires Backed(ents, l, pend, base, poolSize) && id in ents
    ensures EntryOk(ents[id], l, Used(id), base, poolSize)
  {
  }

  // ---------- a value being put

  /** What happens to the chain of a value being put does not touch the entries. */
  lemma PendBacked(ents: Entries, l: Layout, m: Layout, pend: set<int>, pend': set<int>, base: int, poolSize: int,
                   id: int)
    requires Backed(ents, l, pend, base, poolSize) && Owned(l) && id !in ents && OthersKept(l, m, Used(id))
    requires (forall j | j != id :: j in pend <==> j in pend') && (Used(id) in Chains(m) <==> id in pend')
    ensures Backed(ents, m, pend', base, poolSize)
  {
    hide EntryOk, OthersKept, Chains;
    forall j | j in ents ensures EntryOk(ents[j], m, Used(j), base, poolSize) {
      EntryKept(ents[j], l, m, Used(id), Used(j), base, poolSize);
    }
    forall w | w in Chains(m) ensures w.Used? && w.id in ents.Keys + pend' {
      OwnerKept(l, m, Used(id), w);
    }
    forall j | j in ents.Keys + pend' ensures Used(j) in Chains(m) {
      OwnerKept(l, m, Used(id), Used(j));
      assert j != id ==> j in ents.Keys + pend;
    }
  }

  lemma OwnerKept(l: Layout, m: Layout, w: Owner, v: Owner)
    requires OthersKept(l, m, w)
    ensures v != w ==> (v in Chains(m) <==> v in Chains(l))
  {
    assert v != w ==> (v in Chains(m) <==> v in Chains(m) - {w}) && (v in Chains(l) <==> v in Chains(l) - {w});
  }

  lemma PendContent(names: Names, ents: Entries, l: Layout, m: Layout, pool: seq<byte>, base: int, pend: set<int>,
                    pend': set<int>, id: int)
    requires Indexed(names, ents) && Backed(ents, l, pend, base, |pool|) && Backed(ents, m, pend', base, |pool|)
    requires Owned(l) && id !in ents && OthersKept(l, m, Used(id))
    ensures Content(names, ents, m, pool, base, pend') == Content(names, ents, l, pool, base, pend)
  {
    hide OthersKept, Chains;
    forall k | k in names
      ensures ValueOf(ents[names[k]], m, Used(names[k]), pool, base) == ValueOf(ents[names[k]], l, Used(names[k]), pool, base)
    {
      EntryKept(ents[names[k]], l, m, Used(id), Used(names[k]), base, |pool|);
    }
  }

  /** Writing to the extents of one value leaves every other value alone. */
  lemma ScatterContent(r: Region, names: Names, ents: Entries, l: Layout, pool: seq<byte>, pool': seq<byte>, base: int,
                       pend: set<int>, id: int)
    requires r.Valid() && Tiled(r, l.sizes) && Owned(l) && |pool| == |pool'|
    requires Indexed(names, ents) && Backed(ents, l, pend, base, |pool|) && id !in ents && Used(id) in Chains(l)
    requires OnlyIn(pool, pool', base, Exts(l, Used(id)))
    ensures Content(names, ents, l, pool', base, pend) == Content(names, ents, l, pool, base, pend)
  {
    hide Chains, Exts, Tiled, Owned, OnlyIn, Indexed;
    ContentKeys(names, ents, l, pool, base, pend);
    forall k | k in names
      ensures ValueOf(ents[names[k]], l, Used(names[k]), pool', base) == ValueOf(ents[names[k]], l, Used(names[k]), pool, base)
    {
      StoredKept(r, l, pool, pool', base, Used(id), Used(names[k]), ents[names[k]].vsize);
    }
  }

  lemma StoredKept(r: Region, l: Layout, pool: seq<byte>, pool': seq<byte>, base: int, w: Owner, v: Owner, vsize: int)
    requires r.Valid() && Tiled(r, l.sizes) && Owned(l) && |pool| == |pool'|
    requires w.Used? && v.Used? && w != v && w in Chains(l) && v in Chains(l)
    requires AllInside(Exts(l, v), base, |pool|) && OnlyIn(pool, pool', base, Exts(l, w))
    ensures Stored(pool', base, Exts(l, v), vsize) == Stored(pool, base, Exts(l, v), vsize)
  {
    hide Tiled, Owned, Exts, Slice, Gather;
    var e, f := Exts(l, v), Exts(l, w);
    forall j | 0 <= j < |e| ensures Slice(pool, base, e[j]) == Slice(pool', base, e[j]) {
      forall i | 0 <= i < |f| ensures Apart(f[i], e[j]) {
        ExtentsApart(r, l, w, i, v, j);
      }
    }
    GatherFrame(pool, pool', base, e);
  }

  /** The extents of any chain lie inside the pool and do not overlap. */
  lemma ChainExtents(r: Region, l: Layout, w: Owner, base: int, poolSize: int)
    requires r.Valid() && Tiled(r, l.sizes) && Owned(l) && w.Used? && w in Chains(l)
    requires base <= r.lo && r.hi <= base + poolSize
    ensures AllInside(Exts(l, w), base, poolSize) && AllApart(Exts(l, w)) && Room(Exts(l, w)) == Capacity(l, w)
  {
    hide Tiled, Owned;
    var e := Exts(l, w);
    forall i | 0 <= i < |e| ensures Inside(e[i], base, poolSize) { OneExtent(r, l, w, i); }
    forall i, j | 0 <= i < |e| && 0 <= j < |e| && i != j ensures Apart(e[i], e[j]) { ExtentsApart(r, l, w, i, w, j); }
    ChainIsHeld(l, w);
    CapIsRoom(Payloads(l), Chains(l)[w], e);
  }

  lemma OneExtent(r: Region, l: Layout, w: Owner, i: int)
    requires r.Valid() && Tiled(r, l.sizes) && Owned(l) && w.Used? && w in Chains(l) && 0 <= i < |Chains(l)[w]|
    ensures var x := Exts(l, w)[i]; r.lo <= x.ptr && 0 < x.size && x.ptr + x.size <= r.hi
  {
    ChainIsHeld(l, w);
    BlockRange(r, l.sizes, Chains(l)[w][i]);
  }

  // ---------- the new entry

  lemma CommitIndexed(names: Names, ents: Entries, id: int, e: Entry)
    requires Indexed(names, ents) && id !in ents && e.key !in names && |e.key| <= MAX_KEY
    ensures Indexed(names[e.key := id], ents[id := e])
  {
  }

  lemma CommitListed(ents: Entries, order: seq<int>, cells: set<int>, id: int, e: Entry)
    requires Listed(ents, order, cells, {id}, {})
    ensures Listed(ents[id := e], order + [id], cells, {}, {})
  {
  }

  lemma CommitBacked(ents: Entries, l: Layout, base: int, poolSize: int, id: int, e: Entry)
    requires Backed(ents, l, {id}, base, poolSize) && id !in ents && EntryOk(e, l, Used(id), base, poolSize)
    ensures Backed(ents[id := e], l, {}, base, poolSize)
  {
    hide EntryOk, Chains;
    assert ents[id := e].Keys + {} == ents.Keys + {id};
  }

  lemma CommitContent(names: Names, ents: Entries, l: Layout, pool: seq<byte>, base: int, id: int, e: Entry,
                      value: seq<byte>)
    requires Indexed(names, ents) && Backed(ents, l, {id}, base, |pool|) && id !in ents && e.key !in names
    requires EntryOk(e, l, Used(id), base, |pool|) && Stored(pool, base, Exts(l, Used(id)), e.vsize) == value
    requires Indexed(names[e.key := id], ents[id := e]) && Backed(ents[id := e], l, {}, base, |pool|)
    ensures Content(names[e.key := id], ents[id := e], l, pool, base, {})
            == Content(names, ents, l, pool, base, {id})[e.key := value]
  {
    hide Chains, Exts, Stored;
  }
}
