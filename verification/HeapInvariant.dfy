/** The heap invariant over memory and layout, and what each of the four moves does to it. */
module HeapInvariant {
  import opened Sequences
  import opened HeapLayout
  import opened Sums

  /** `ex` names a list that is being torn down (its first `prev` may be stale); Limbo means none. */
  ghost predicate Inv(r: Region, hdr: map<int, Header>, ftr: map<int, int>, first: int, l: Layout, ex: Owner) {
    && r.Valid()
    && Tiled(r, l.sizes)
    && Aligned(r, l.sizes)
    && Owned(l)
    && Coalesced(l.sizes, l.owners)
    && Tagged(hdr, ftr, l.sizes, l.owners)
    && Guarded(r, hdr, ftr)
    && AllLinked(hdr, l.lists, ex)
    && ex != Free
    && first == At(l.lists[Free], 0)
  }

  /** The allocated blocks, with their payload sizes and owners. */
  ghost function Held(l: Layout): map<int, (int, Owner)> {
    map a | a in l.sizes && a in l.owners && l.owners[a].Used? :: (l.sizes[a], l.owners[a])
  }

  ghost function WithoutTags(held: map<int, (int, Owner)>): map<int, int> {
    map a | a in held :: held[a].0 - HFER_SIZE
  }

  ghost function Payloads(l: Layout): map<int, int> {
    WithoutTags(Held(l))
  }

  /** The chains of all values. */
  ghost function Chains(l: Layout): Lists {
    l.lists - {Free}
  }

  ghost predicate LeftBusy(l: Layout, a: int)
    requires l.owners.Keys == l.sizes.Keys
  {
    forall c {:trigger End(l.sizes, c)} | c in l.sizes && End(l.sizes, c) == a :: l.owners[c] != Free
  }

  ghost predicate RightBusy(l: Layout, a: int)
    requires l.owners.Keys == l.sizes.Keys && a in l.sizes
  {
    End(l.sizes, a) in l.sizes ==> l.owners[End(l.sizes, a)] != Free
  }

  ghost predicate OnlyLimbo(l: Layout, a: int) {
    a in l.owners && l.owners[a] == Limbo && forall c | c in l.owners && l.owners[c] == Limbo :: c == a
  }

  ghost predicate NoLimbo(l: Layout) {
    forall c | c in l.owners :: l.owners[c] != Limbo
  }

  /** What moving free and detached blocks leaves alone: every value's chain and its blocks. */
  ghost predicate SameChains(l: Layout, m: Layout) {
    Chains(l) == Chains(m) && Held(l) == Held(m)
  }

  lemma TakeInv(r: Region, hdr: map<int, Header>, ftr: map<int, int>, first: int, l: Layout, ex: Owner,
                w: Owner, k: int)
    requires Inv(r, hdr, ftr, first, l, ex)
    requires w in l.lists && w != ex && 0 <= k < |l.lists[w]|
    ensures HasNeighbours(hdr, l.lists[w][k])
    ensures hdr[l.lists[w][k]].next == At(l.lists[w], k + 1) && hdr[l.lists[w][k]].prev == At(l.lists[w], k - 1)
    ensures var first' := if w == Free && k == 0 then At(l.lists[w], 1) else first;
            Inv(r, Unlink(hdr, l.lists[w][k]), ftr, first', Take(l, w, k), ex)
  {
    TakeLinked(r, hdr, l, w, k, ex);
    TakeTagged(r, hdr, ftr, l, w, k);
    TakeOwned(l, w, k);
    assert Coalesced(l.sizes, Take(l, w, k).owners);
  }

  lemma ListHead(r: Region, hdr: map<int, Header>, ftr: map<int, int>, first: int, l: Layout, ex: Owner, w: Owner)
    requires Inv(r, hdr, ftr, first, l, ex) && w in l.lists && w != ex
    ensures Positive(l.lists[w]) && Distinct(l.lists[w])
    ensures l.lists[w] != [] ==> l.lists[w][0] in hdr && hdr[l.lists[w][0]].prev == 0
    ensures w == Free ==> first == At(l.lists[w], 0)
    ensures forall a, i | a in l.owners && l.owners[a] == Limbo && 0 <= i < |l.lists[w]| :: a != l.lists[w][i]
  {
    AllPositive(r, l, w);
  }

  lemma Place(l: Layout, a: int, w: Owner) returns (k: int)
    requires Owned(l) && a in l.owners && l.owners[a] == w != Limbo
    ensures w in l.lists && 0 <= k < |l.lists[w]| && l.lists[w][k] == a
  {
    k :| 0 <= k < |l.lists[w]| && l.lists[w][k] == a;
  }

  /** Taking the first element of a list that is being torn down needs no write at all. */
  lemma TakeStale(r: Region, hdr: map<int, Header>, ftr: map<int, int>, first: int, l: Layout, ex: Owner)
    requires Inv(r, hdr, ftr, first, l, ex) && ex in l.lists && l.lists[ex] != []
    ensures Inv(r, hdr, ftr, first, Take(l, ex, 0), ex)
  {
    TakeOwned(l, ex, 0);
    var s, t := l.lists[ex], RemoveAt(l.lists[ex], 0);
    forall k | 0 <= k < |t| ensures LinkAt(hdr, t, k) {
      assert LinkAt(hdr, s, k + 1);
      assert t[k] == s[k + 1];
    }
    assert Coalesced(l.sizes, Take(l, ex, 0).owners);
  }

  lemma GiveInv(r: Region, hdr: map<int, Header>, ftr: map<int, int>, first: int, l: Layout, ex: Owner,
                a: int, w: Owner)
    requires Inv(r, hdr, ftr, first, l, ex)
    requires w in l.lists && w != ex && a in l.sizes && l.owners[a] == Limbo
    requires w == Free ==> LeftBusy(l, a) && RightBusy(l, a)
    ensures l.lists[w] != [] ==> l.lists[w][0] in hdr
    ensures var flags := Pack(l.sizes[a] - HFER_SIZE, w != Free);
            Inv(r, LinkFront(hdr, l.lists[w], a, flags), ftr[End(l.sizes, a) - FOOTER_SIZE := flags],
                if w == Free then a + HEADER_SIZE else first, Give(l, a, w), ex)
  {
    GiveLinked(hdr, l, a, w, ex, Pack(l.sizes[a] - HFER_SIZE, w != Free));
    GiveTagged(r, hdr, ftr, l, a, w);
    GiveOwned(l, a, w);
    GiveCoalesced(l, a, w);
  }

  lemma GiveCoalesced(l: Layout, a: int, w: Owner)
    requires l.owners.Keys == l.sizes.Keys && a in l.sizes && Coalesced(l.sizes, l.owners)
    requires w == Free ==> LeftBusy(l, a) && RightBusy(l, a) && l.sizes[a] > 0
    ensures Coalesced(l.sizes, l.owners[a := w])
  {
  }

  lemma SplitInv(r: Region, hdr: map<int, Header>, ftr: map<int, int>, first: int, l: Layout, ex: Owner,
                 a: int, n: int)
    requires Inv(r, hdr, ftr, first, l, ex) && a in l.sizes && l.owners[a] == Limbo
    requires r.MinBlock() <= n && r.MinBlock() <= l.sizes[a] - n && n % r.extentSize == 0
    ensures a + n !in l.sizes
    ensures Inv(r, hdr, ftr, first, Split(l, a, n), ex)
  {
    SplitTiled(r, l.sizes, a, n);
    SplitOwned(l, a, n);
    ModAdd(a - r.lo, n, r.extentSize);
    var m := Split(l, a, n);
    assert Tagged(hdr, ftr, m.sizes, m.owners);
    forall c | c in m.sizes && m.owners[c] == Free && End(m.sizes, c) in m.sizes
      ensures m.owners[End(m.sizes, c)] != Free
    {
      assert End(m.sizes, c) == End(l.sizes, c);
    }
  }

  lemma JoinInv(r: Region, hdr: map<int, Header>, ftr: map<int, int>, first: int, l: Layout, ex: Owner, a: int)
    requires Inv(r, hdr, ftr, first, l, ex) && a in l.sizes && l.owners[a] == Limbo
    requires End(l.sizes, a) in l.sizes && l.owners[End(l.sizes, a)] == Limbo
    ensures Inv(r, hdr, ftr, first, Join(l, a), ex)
  {
    JoinTiled(r, l.sizes, a);
    assert End(l.sizes, a) > a;
    JoinOwned(l, a);
    var m := Join(l, a);
    assert Tagged(hdr, ftr, m.sizes, m.owners);
    forall c | c in m.sizes && m.owners[c] == Free && End(m.sizes, c) in m.sizes
      ensures m.owners[End(m.sizes, c)] != Free
    {
      assert End(m.sizes, c) == End(l.sizes, c);
    }
  }

  // ---------- what the moves do to the allocated blocks

  lemma SplitHeld(l: Layout, a: int, n: int)
    requires l.owners.Keys == l.sizes.Keys && a in l.sizes && l.owners[a] == Limbo && a + n !in l.sizes
    ensures SameChains(l, Split(l, a, n))
  {
  }

  lemma JoinHeld(l: Layout, a: int)
    requires l.owners.Keys == l.sizes.Keys && a in l.sizes && l.owners[a] == Limbo
    requires End(l.sizes, a) in l.sizes && l.owners[End(l.sizes, a)] == Limbo && l.sizes[a] > 0
    ensures Held(Join(l, a)) == Held(l)
  {
  }

  lemma TakeHeld(l: Layout, w: Owner, k: int)
    requires Owned(l) && w in l.lists && 0 <= k < |l.lists[w]|
    ensures w == Free ==> Held(Take(l, w, k)) == Held(l)
    ensures w != Free ==> l.lists[w][k] in Held(l) && Held(Take(l, w, k)) == Held(l) - {l.lists[w][k]}
  {
  }

  lemma GiveHeld(l: Layout, a: int, w: Owner)
    requires Owned(l) && w in l.lists && a in l.owners && l.owners[a] == Limbo
    ensures w == Free ==> Held(Give(l, a, w)) == Held(l)
    ensures w != Free ==> a !in Held(l) && Held(Give(l, a, w)) == Held(l)[a := (l.sizes[a], w)]
  {
  }

  lemma ChainsLookup(l: Layout, w: Owner)
    ensures w.Used? ==> (w in l.lists <==> w in Chains(l)) && (w in l.lists ==> Chains(l)[w] == l.lists[w])
  {
  }

  lemma TakeHeldFirst(l: Layout)
    requires Owned(l)
    ensures l.lists[Free] != [] ==> SameChains(l, Take(l, Free, 0))
  {
    if l.lists[Free] != [] {
      TakeHeld(l, Free, 0);
      assert Chains(Take(l, Free, 0)) == Chains(l);
    }
  }

  /** Chaining the only detached block adds exactly it to the allocated blocks. */
  lemma ChainOne(l: Layout, a: int, w: Owner)
    requires Owned(l) && OnlyLimbo(l, a) && w in l.lists && w.Used?
    ensures NoLimbo(Give(l, a, w))
    ensures w in Chains(l) && Chains(Give(l, a, w)) == Chains(l)[w := [a] + Chains(l)[w]]
    ensures a !in Held(l) && Held(Give(l, a, w)) == Held(l)[a := (l.sizes[a], w)]
    ensures Chains(l)[w] == l.lists[w]
  {
    GiveHeld(l, a, w);
    assert Chains(Give(l, a, w)) == Chains(l)[w := [a] + Chains(l)[w]];
  }

  lemma PayloadsAdd(l: Layout, m: Layout, a: int)
    requires a !in Held(l) && a in Held(m) && Held(m) == Held(l)[a := Held(m)[a]]
    ensures Total(Payloads(m)) == Total(Payloads(l)) + Held(m)[a].0 - HFER_SIZE
  {
    assert Payloads(m) == Payloads(l)[a := Held(m)[a].0 - HFER_SIZE];
    TotalAdd(Payloads(l), a, Held(m)[a].0 - HFER_SIZE);
  }

  lemma PayloadsRemove(l: Layout, m: Layout, a: int)
    requires a in Held(l) && Held(m) == Held(l) - {a}
    ensures Total(Payloads(m)) == Total(Payloads(l)) - (Held(l)[a].0 - HFER_SIZE)
  {
    assert Payloads(m) == Payloads(l) - {a};
    TotalRemove(Payloads(l), a);
  }

  // ---------- how much one popped block may exceed a request

  /** What is left of the region after the last whole extent. */
  function Remainder(r: Region): int
    requires r.extentSize > 0
  {
    (r.hi - r.lo) % r.extentSize
  }

  /** The size a popped block of `size` bytes is cut down to for a request of `want` payload bytes. */
  function FitSize(extentSize: int, size: int, want: int): int
    requires 0 < extentSize && 0 < want
  {
    var alloc := RoundUp(want + HFER_SIZE, extentSize);
    if size >= alloc + extentSize then alloc else size
  }

  /** How far a block taken for a request of `want` payload bytes may exceed it. */
  ghost predicate WithinRequest(r: Region, a: int, size: int, want: int)
    requires r.extentSize > 0
  {
    size < want + HFER_SIZE + r.extentSize + if a + size == r.hi then Remainder(r) else 0
  }

  lemma RemainderRange(r: Region)
    requires r.extentSize > 0
    ensures 0 <= Remainder(r) < r.extentSize
  {
  }

  /** Only the block that ends at the upper guard may have a size that is no multiple of the extent size. */
  lemma WholeExtents(r: Region, z: Sizes, a: int)
    requires r.Valid() && Tiled(r, z) && Aligned(r, z) && a in z
    ensures End(z, a) != r.hi ==> z[a] % r.extentSize == 0
    ensures End(z, a) == r.hi ==> (z[a] - Remainder(r)) % r.extentSize == 0
  {
    var m, e := r.extentSize, End(z, a);
    assert e != r.hi ==> (e - r.lo) % m == 0;
    assert (a - r.lo) % m == 0;
    hide InRegion, Contiguous, Disjoint, Aligned;
    if e != r.hi {
      ModAdd(e - r.lo, a - r.lo, m);
      assert z[a] == (e - r.lo) - (a - r.lo);
    } else {
      var x := r.hi - r.lo;
      ModRest(x, m);
      ModAdd(x - x % m, a - r.lo, m);
      assert z[a] - Remainder(r) == (x - x % m) - (a - r.lo);
    }
  }

  lemma MultipleBelow(x: int, y: int, m: int)
    requires 0 < m && x % m == 0 && y % m == 0 && x < y + m
    ensures x <= y
  {
    ModAdd(x, y, m);
  }

  /** A block that was not worth splitting exceeds the rounded request by less than the remainder. */
  lemma NotSplit(r: Region, z: Sizes, a: int, want: int)
    requires r.Valid() && Tiled(r, z) && Aligned(r, z) && a in z
    requires want % r.extentSize == 0 && z[a] < want + r.extentSize
    ensures z[a] <= want + (if End(z, a) == r.hi then Remainder(r) else 0)
  {
    WholeExtents(r, z, a);
    if End(z, a) == r.hi {
      MultipleBelow(z[a] - Remainder(r), want, r.extentSize);
    } else {
      MultipleBelow(z[a], want, r.extentSize);
    }
  }

  /** The rest of a split block has no free neighbour. */
  lemma SplitBordered(r: Region, l: Layout, a: int, n: int)
    requires r.Valid() && Tiled(r, l.sizes) && l.owners.Keys == l.sizes.Keys && a in l.sizes && OnlyLimbo(l, a)
    requires RightBusy(l, a) && 0 < n < l.sizes[a] && a + n !in l.sizes
    ensures var m := Split(l, a, n);
            && LeftBusy(m, a + n) && RightBusy(m, a + n)
            && (forall c | c in m.owners && m.owners[c] == Limbo :: c == a || c == a + n)
  {
    var m := Split(l, a, n);
    assert End(m.sizes, a + n) == End(l.sizes, a);
    forall c | c in l.sizes && c != a ensures End(m.sizes, c) == End(l.sizes, c) != a + n {
      assert End(l.sizes, c) <= a || End(l.sizes, a) <= c;
    }
  }

  /** What the code reads in the first free block, and that popping it only clears the successor's `prev`. */
  lemma FirstFree(r: Region, hdr: map<int, Header>, ftr: map<int, int>, first: int, l: Layout)
    requires Inv(r, hdr, ftr, first, l, Limbo) && NoLimbo(l) && l.lists[Free] != []
    ensures var a, m := l.lists[Free][0], Take(l, Free, 0);
            && first == a + HEADER_SIZE && a in hdr && a in l.sizes && hdr[a].prev == 0
            && hdr[a].sizeFlags == l.sizes[a] - HFER_SIZE < FLAG_ALLOCATED
            && first + hdr[a].sizeFlags in ftr && ftr[first + hdr[a].sizeFlags] == hdr[a].sizeFlags
            && hdr[a].next == At(l.lists[Free], 1) && HasNeighbours(hdr, a)
            && Inv(r, Unlink(hdr, a), ftr, hdr[a].next, m, Limbo)
            && OnlyLimbo(m, a) && m.owners.Keys == m.sizes.Keys && RightBusy(m, a)
  {
    hide Tiled, Coalesced, AllLinked, Aligned, Guarded, OnlyLimbo, RightBusy, NoLimbo;
    var a := l.lists[Free][0];
    ListHead(r, hdr, ftr, first, l, Limbo, Free);
    TakeInv(r, hdr, ftr, first, l, Limbo, Free, 0);
    TakenFree(l);
    assert TagOf(hdr, ftr, a, l.sizes[a], Free);
    BlockRange(r, l.sizes, a);
  }

  lemma TakenFree(l: Layout)
    requires Owned(l) && NoLimbo(l) && Coalesced(l.sizes, l.owners) && l.lists[Free] != []
    ensures var a, m := l.lists[Free][0], Take(l, Free, 0);
            a in l.sizes && OnlyLimbo(m, a) && m.owners.Keys == m.sizes.Keys && RightBusy(m, a)
  {
    FreeIsBordered(l, l.lists[Free][0]);
  }

  lemma FirstListed(l: Layout, w: Owner)
    requires Owned(l) && w in l.lists
    ensures l.lists[w] != [] ==> l.lists[w][0] in l.sizes
  {
  }

  lemma IsLimbo(l: Layout, a: int)
    requires OnlyLimbo(l, a)
    ensures a in l.owners && l.owners[a] == Limbo
  {
  }

  lemma TakenFrom(l: Layout, w: Owner, k: int)
    requires Owned(l) && NoLimbo(l) && w.Used? && w in l.lists && 0 <= k < |l.lists[w]|
    ensures OnlyLimbo(Take(l, w, k), l.lists[w][k])
    ensures Chains(Take(l, w, k)) == Chains(l)[w := RemoveAt(l.lists[w], k)]
  {
  }

  lemma TakeKept(l: Layout, w: Owner, k: int)
    requires Owned(l) && w.Used? && w in l.lists && 0 <= k < |l.lists[w]|
    ensures OthersKept(l, Take(l, w, k), w)
  {
    TakeHeld(l, w, k);
    assert Chains(Take(l, w, k)) == Chains(l)[w := RemoveAt(l.lists[w], k)];
  }

  lemma ChainedKept(l: Layout, m: Layout, w: Owner, a: int, size: int)
    requires Chained(l, m, w, a, size)
    ensures OthersKept(l, m, w)
  {
    assert Chains(m) - {w} == Chains(l) - {w};
  }

  /** Freeing one of two detached blocks leaves the other one, and no chain changes. */
  lemma RestGiven(m: Layout, a: int, c: int)
    requires Owned(m) && a in m.owners && m.owners[a] == Limbo && c in m.owners && m.owners[c] == Limbo && a != c
    requires forall x | x in m.owners && m.owners[x] == Limbo :: x == a || x == c
    ensures var n := Give(m, c, Free); OnlyLimbo(n, a) && Chains(n) == Chains(m) && n.owners.Keys == n.sizes.Keys
  {
  }

  // ---------- the payload of a chain

  ghost function Cap(p: map<int, int>, s: seq<int>): int {
    if s == [] then 0 else (if s[0] in p then p[s[0]] else 0) + Cap(p, s[1..])
  }

  lemma {:induction false} CapSame(p: map<int, int>, q: map<int, int>, s: seq<int>)
    requires forall i | 0 <= i < |s| :: s[i] in p && s[i] in q && p[s[i]] == q[s[i]]
    ensures Cap(p, s) == Cap(q, s)
  {
    if s != [] {
      CapSame(p, q, s[1..]);
    }
  }

  lemma {:induction false} CapRemoveAt(p: map<int, int>, s: seq<int>, k: int)
    requires 0 <= k < |s| && s[k] in p
    ensures Cap(p, RemoveAt(s, k)) == Cap(p, s) - p[s[k]]
  {
    var t := RemoveAt(s, k);
    if k == 0 {
      assert t == s[1..];
    } else {
      CapRemoveAt(p, s[1..], k - 1);
      assert t[1..] == RemoveAt(s[1..], k - 1);
    }
  }

  ghost function Capacity(l: Layout, w: Owner): int {
    if w in Chains(l) then Cap(Payloads(l), Chains(l)[w]) else 0
  }

  /** The blocks of a chain are exactly the allocated blocks of its owner, each once. */
  lemma ChainIsHeld(l: Layout, w: Owner)
    requires Owned(l) && w in Chains(l) && w.Used?
    ensures Distinct(Chains(l)[w])
    ensures forall i | 0 <= i < |Chains(l)[w]| ::
              Chains(l)[w][i] in Held(l) && Held(l)[Chains(l)[w][i]].1 == w
              && Chains(l)[w][i] in l.sizes && Held(l)[Chains(l)[w][i]].0 == l.sizes[Chains(l)[w][i]]
    ensures forall a | a in Held(l) && Held(l)[a].1 == w :: a in Chains(l)[w]
  {
  }

  /** No block outside the chain of `w` changes. */
  ghost predicate OthersKept(l: Layout, m: Layout, w: Owner) {
    && Chains(m) - {w} == Chains(l) - {w}
    && (forall a | a in Held(l) && Held(l)[a].1 != w :: a in Held(m) && Held(m)[a] == Held(l)[a])
    && (forall a | a in Held(m) && Held(m)[a].1 != w :: a in Held(l) && Held(l)[a] == Held(m)[a])
  }

  lemma ChainGrows(l: Layout, m: Layout, w: Owner, a: int, size: int)
    requires Owned(l) && w.Used? && w in Chains(l) && a !in Held(l)
    requires Chains(m) == Chains(l)[w := [a] + Chains(l)[w]] && Held(m) == Held(l)[a := (size, w)]
    ensures Capacity(m, w) == Capacity(l, w) + size - HFER_SIZE
    ensures Total(Payloads(m)) == Total(Payloads(l)) + size - HFER_SIZE
    ensures OthersKept(l, m, w)
  {
    var s := Chains(l)[w];
    ChainIsHeld(l, w);
    CapSame(Payloads(l), Payloads(m), s);
    assert ([a] + s)[1..] == s;
    PayloadsAdd(l, m, a);
    assert Chains(m) - {w} == Chains(l) - {w};
  }

  lemma ChainShrinks(l: Layout, m: Layout, w: Owner, k: int)
    requires Owned(l) && w.Used? && w in Chains(l) && 0 <= k < |Chains(l)[w]|
    requires Chains(m) == Chains(l)[w := RemoveAt(Chains(l)[w], k)] && Held(m) == Held(l) - {Chains(l)[w][k]}
    ensures Chains(l)[w][k] in Held(l)
    ensures Capacity(m, w) == Capacity(l, w) - (Held(l)[Chains(l)[w][k]].0 - HFER_SIZE)
    ensures Total(Payloads(m)) == Total(Payloads(l)) - (Held(l)[Chains(l)[w][k]].0 - HFER_SIZE)
    ensures OthersKept(l, m, w)
  {
    var s := Chains(l)[w];
    var t := RemoveAt(s, k);
    ChainIsHeld(l, w);
    CapRemoveAt(Payloads(l), s, k);
    forall i | 0 <= i < |t| ensures t[i] in Held(m) {
      assert t[i] == s[if i < k then i else i + 1] != s[k];
    }
    CapSame(Payloads(l), Payloads(m), t);
    PayloadsRemove(l, m, s[k]);
    assert Chains(m) - {w} == Chains(l) - {w};
  }

  // ---------- the room in the free blocks

  ghost function FreeBlocks(l: Layout): Sizes {
    map a | a in l.sizes && a in l.owners && l.owners[a] == Free :: l.sizes[a]
  }

  ghost function Usable(z: Sizes): map<int, int> {
    map a | a in z :: z[a] - HFER_SIZE
  }

  /** What the free blocks can hold, if each of them is allocated whole. */
  ghost function FreeRoom(l: Layout): int {
    Total(Usable(FreeBlocks(l)))
  }

  lemma OneFreeRoom(l: Layout, a: int, n: int)
    requires l.sizes == map[a := n] && l.owners == map[a := Free]
    ensures FreeRoom(l) == n - HFER_SIZE
  {
    var u := Usable(FreeBlocks(l));
    assert u == map[a := n - HFER_SIZE] && u - {a} == map[];
    TotalRemove(u, a);
  }

  lemma NoFreeRoom(l: Layout)
    requires Owned(l) && l.lists[Free] == []
    ensures FreeRoom(l) == 0
  {
    forall a | a in l.owners ensures l.owners[a] != Free {
      assert l.owners[a] != Limbo ==> a in l.lists[l.owners[a]];
    }
    assert Usable(FreeBlocks(l)) == map[];
  }

  /** Allocating a whole free block takes its room away, no more and no less. */
  lemma WholeTaken(r: Region, l: Layout, w: Owner)
    requires r.Valid() && Tiled(r, l.sizes) && Owned(l) && l.lists[Free] != [] && w.Used? && w in l.lists
    ensures var x := l.lists[Free][0];
            && x in l.sizes && FreeRoom(Give(Take(l, Free, 0), x, w)) == FreeRoom(l) - (l.sizes[x] - HFER_SIZE)
            && l.sizes[x] - HFER_SIZE <= FreeRoom(l)
  {
    var x, z := l.lists[Free][0], Usable(FreeBlocks(l));
    var m := Give(Take(l, Free, 0), x, w);
    assert Usable(FreeBlocks(m)) == z - {x};
    TotalRemove(z, x);
    forall a | a in z - {x} ensures 0 <= z[a] { BlockRange(r, l.sizes, a); }
    NotNegative(z - {x});
  }

  /** The free list after a whole block was taken from its front. */
  lemma FreeListAfter(l: Layout, w: Owner)
    requires Owned(l) && l.lists[Free] != [] && w.Used? && w in l.lists
    ensures var m := Give(Take(l, Free, 0), l.lists[Free][0], w);
            m.sizes == l.sizes && m.lists[Free] == l.lists[Free][1..]
  {
  }

  /** One turn against the free room: it takes a whole block, or it covers the request. */
  lemma TurnRoom(r: Region, l: Layout, m: Layout, w: Owner, kept: int, want: int)
    requires r.Valid() && Tiled(r, l.sizes) && Owned(l) && l.lists[Free] != [] && w.Used? && w in l.lists && 0 < want
    requires var x := l.lists[Free][0];
             && x in l.sizes && kept == FitSize(r.extentSize, l.sizes[x], want)
             && (kept == l.sizes[x] ==> m == Give(Take(l, Free, 0), x, w))
    ensures kept - HFER_SIZE < want ==> FreeRoom(m) == FreeRoom(l) - (kept - HFER_SIZE)
    ensures kept - HFER_SIZE < want ==> m.sizes == l.sizes && Free in m.lists && m.lists[Free] == l.lists[Free][1..]
    ensures kept - HFER_SIZE >= want ==> want <= FreeRoom(l)
  {
    hide FreeRoom, Tiled, Owned;
    WholeTaken(r, l, w);
    FreeListAfter(l, w);
  }

  lemma {:induction false} NotNegative(p: map<int, int>)
    requires forall a | a in p :: 0 <= p[a]
    ensures 0 <= Total(p)
    decreases |p|
  {
    if k :| k in p {
      TotalRemove(p, k);
      NotNegative(p - {k});
    }
  }

  // ---------- the small extent, and how tightly a finished chain fits

  ghost predicate SmallAt(r: Region, l: Layout, w: Owner, small: int, k: int) {
    && w in Chains(l) && 0 <= k < |Chains(l)[w]| && small == At(Chains(l)[w], k)
    && Chains(l)[w][k] in Held(l) && Held(l)[Chains(l)[w][k]].0 == r.extentSize
    && (forall i | k < i < |Chains(l)[w]| ::
          Chains(l)[w][i] in Held(l) && Held(l)[Chains(l)[w][i]].0 != r.extentSize)
  }

  /** `small` is NULL when no chain element is one extent long, and otherwise points to the last one that is. */
  ghost predicate SmallOk(r: Region, l: Layout, w: Owner, small: int) {
    if small == 0 then NoSingles(r, l, w) else exists k :: SmallAt(r, l, w, small, k)
  }

  ghost predicate NoSingles(r: Region, l: Layout, w: Owner) {
    w in Chains(l) && forall i | 0 <= i < |Chains(l)[w]| ::
      Chains(l)[w][i] in Held(l) && Held(l)[Chains(l)[w][i]].0 != r.extentSize
  }

  /** The part of a block's size that is no whole extent. */
  ghost function TailBytes(r: Region, a: int, size: int): int
    requires r.extentSize > 0
  {
    if a + size == r.hi then Remainder(r) else 0
  }

  /** The chain of `w` holds `need` bytes, and this is how much more it may hold. */
  ghost predicate Filled(r: Region, l: Layout, w: Owner, need: int, small: int)
    requires r.extentSize > 0
  {
    && w in Chains(l) && Chains(l)[w] != [] && Chains(l)[w][0] in Held(l)
    && var a := Chains(l)[w][0];
       var size := Held(l)[a].0;
       var excess := Capacity(l, w) - need;
       && 0 <= excess < size - HFER_SIZE
       && excess < r.extentSize + TailBytes(r, a, size)
       && (small != 0 ==> excess < r.extentSize - HFER_SIZE || GaveBack(r, l, w, excess))
       && (small == 0 ==> NoSingles(r, l, w))
  }

  /** A one-extent block was given back: it must have had its place in the region beside the chain. */
  ghost predicate GaveBack(r: Region, l: Layout, w: Owner, excess: int)
    requires r.extentSize > 0 && w in Chains(l) && Chains(l)[w] != [] && Chains(l)[w][0] in Held(l)
  {
    var s := Chains(l)[w];
    var size := Held(l)[s[0]].0;
    && excess < HFER_SIZE + TailBytes(r, s[0], size) && excess < size - r.extentSize
    && (forall i | 0 < i < |s| :: s[i] in Held(l) && size + Held(l)[s[i]].0 + r.extentSize <= r.hi - r.lo)
  }

  /** A finished chain has room for the request, and this is the most it wastes. */
  lemma AllocationBound(r: Region, l: Layout, w: Owner, need: int, small: int)
    requires r.Valid() && Filled(r, l, w, need, small)
    ensures var excess := Capacity(l, w) - need;
            && 0 <= excess <= 2 * r.extentSize - 2
            && (Remainder(r) == 0 ==> excess < r.extentSize)
            && (Remainder(r) == 0 && small != 0 ==> excess < r.extentSize - HFER_SIZE)
  {
    RemainderRange(r);
  }

  lemma SmallGrows(r: Region, l: Layout, m: Layout, w: Owner, a: int, size: int, small: int) returns (k: int)
    requires SmallOk(r, l, w, small) && w in Chains(l) && a > 0 && a !in Held(l)
    requires Chains(m) == Chains(l)[w := [a] + Chains(l)[w]] && Held(m) == Held(l)[a := (size, w)]
    ensures var small' := if small == 0 && size == r.extentSize then a + HEADER_SIZE else small;
            && SmallOk(r, m, w, small')
            && (small' != 0 ==> SmallAt(r, m, w, small', k) && (k == 0 ==> size == r.extentSize))
  {
    hide Chains, Held;
    k := 0;
    if small != 0 {
      var j :| SmallAt(r, l, w, small, j);
      SmallDeeper(r, l, m, w, a, size, small, j);
      k := j + 1;
    } else {
      SinglesBelow(r, l, m, w, a, size);
    }
  }

  lemma SmallDeeper(r: Region, l: Layout, m: Layout, w: Owner, a: int, size: int, small: int, j: int)
    requires SmallAt(r, l, w, small, j) && a !in Held(l)
    requires Chains(m) == Chains(l)[w := [a] + Chains(l)[w]] && Held(m) == Held(l)[a := (size, w)]
    ensures SmallAt(r, m, w, small, j + 1)
  {
    hide Chains, Held;
    var s, t := Chains(l)[w], Chains(m)[w];
    forall i | j + 1 < i < |t| ensures t[i] in Held(m) && Held(m)[t[i]].0 != r.extentSize {
      assert t[i] == s[i - 1];
    }
  }

  lemma SinglesBelow(r: Region, l: Layout, m: Layout, w: Owner, a: int, size: int)
    requires NoSingles(r, l, w) && a !in Held(l)
    requires Chains(m) == Chains(l)[w := [a] + Chains(l)[w]] && Held(m) == Held(l)[a := (size, w)]
    ensures if size == r.extentSize then SmallAt(r, m, w, a + HEADER_SIZE, 0) else NoSingles(r, m, w)
  {
    hide Chains, Held;
    var s, t := Chains(l)[w], Chains(m)[w];
    forall i | 0 < i < |t| ensures t[i] in Held(m) && Held(m)[t[i]].0 != r.extentSize {
      assert t[i] == s[i - 1];
    }
  }

  /** The outcome of one turn of the allocation loop that chained a block of `got` payload bytes. */
  ghost predicate Stepped(r: Region, l: Layout, m: Layout, w: Owner, want: int, got: int, first: int, small: int)
    requires r.extentSize > 0
  {
    && w in Chains(m) && first == At(Chains(m)[w], 0) && OthersKept(l, m, w)
    && (got < want ==> Capacity(m, w) == Capacity(l, w) + got && SmallOk(r, m, w, small))
    && (got >= want ==> Filled(r, m, w, Capacity(l, w) + want, small))
  }

  ghost predicate Chained(l: Layout, m: Layout, w: Owner, a: int, size: int) {
    && Owned(l) && w.Used? && w in Chains(l) && a !in Held(l)
    && Chains(m) == Chains(l)[w := [a] + Chains(l)[w]] && Held(m) == Held(l)[a := (size, w)]
  }

  /** The small extent is kept unless the surplus would cover it. */
  lemma StepKeeps(r: Region, l: Layout, m: Layout, w: Owner, a: int, size: int, want: int, small: int)
    requires r.extentSize > HFER_SIZE && Chained(l, m, w, a, size) && SmallOk(r, m, w, small)
    requires WithinRequest(r, a, size, want) && 0 < want
    requires small != 0 ==> size - HFER_SIZE - want < r.extentSize - HFER_SIZE
    ensures Stepped(r, l, m, w, want, size - HFER_SIZE, a + HEADER_SIZE, small)
    ensures Total(Payloads(m)) == Total(Payloads(l)) + size - HFER_SIZE
  {
    ChainGrows(l, m, w, a, size);
  }

  lemma StepGivesBack(r: Region, l: Layout, m: Layout, n: Layout, w: Owner, a: int, size: int, want: int, small: int,
                      k: int)
    requires r.Valid() && Tiled(r, m.sizes) && Chained(l, m, w, a, size) && Owned(m)
    requires 0 < k && small != 0 && SmallAt(r, m, w, small, k)
    requires WithinRequest(r, a, size, want) && 0 < want
    requires size - HFER_SIZE - want >= r.extentSize - HFER_SIZE
    requires Chains(n) == Chains(m)[w := RemoveAt(Chains(m)[w], k)] && Held(n) == Held(m) - {Chains(m)[w][k]}
    ensures Stepped(r, l, n, w, want, size - HFER_SIZE, a + HEADER_SIZE, small)
    ensures Total(Payloads(n)) == Total(Payloads(l)) + (size - HFER_SIZE) - (r.extentSize - HFER_SIZE)
  {
    ChainGrows(l, m, w, a, size);
    ChainShrinks(m, n, w, k);
    ChainIsHeld(m, w);
    assert Chains(n)[w][0] == a && Held(n)[a].0 == size;
    OthersTrans(l, m, n, w);
    GivesBackRoom(r, m, n, w, k);
  }

  /** The head of the chain, any other block of it, and the block given back lie side by side. */
  lemma GivesBackRoom(r: Region, m: Layout, n: Layout, w: Owner, k: int)
    requires r.Valid() && Tiled(r, m.sizes) && Owned(m) && w.Used? && w in Chains(m) && 0 < k < |Chains(m)[w]|
    requires Chains(n) == Chains(m)[w := RemoveAt(Chains(m)[w], k)] && Held(n) == Held(m) - {Chains(m)[w][k]}
    ensures var s := Chains(n)[w];
            && s != [] && s[0] in Held(n)
            && forall i | 0 < i < |s| ::
                 s[i] in Held(n) && Held(n)[s[0]].0 + Held(n)[s[i]].0 + Held(m)[Chains(m)[w][k]].0 <= r.hi - r.lo
  {
    hide Tiled, Owned, Chains, Held;
    ChainIsHeld(m, w);
    var t, s := Chains(m)[w], Chains(n)[w];
    forall i | 0 < i < |s|
      ensures s[i] in Held(n) && Held(n)[s[0]].0 + Held(n)[s[i]].0 + Held(m)[t[k]].0 <= r.hi - r.lo
    {
      var j := if i < k then i else i + 1;
      assert s[i] == t[j] && s[0] == t[0] && t[0] != t[j] && t[0] != t[k] && t[j] != t[k];
      ThreeBlocks(r, m.sizes, t[0], t[j], t[k]);
    }
  }

  lemma ThreeBlocks(r: Region, z: Sizes, a: int, b: int, c: int)
    requires r.Valid() && Tiled(r, z) && a in z && b in z && c in z && a != b && a != c && b != c
    ensures z[a] + z[b] + z[c] <= r.hi - r.lo
  {
    BlockRange(r, z, a);
    BlockRange(r, z, b);
    BlockRange(r, z, c);
    StartsApart(z, a, b);
    StartsApart(z, b, a);
    StartsApart(z, a, c);
    StartsApart(z, c, a);
    StartsApart(z, b, c);
    StartsApart(z, c, b);
  }

  lemma SmallInLists(l: Layout, r: Region, w: Owner, small: int, k: int)
    requires Owned(l) && w.Used? && SmallAt(r, l, w, small, k)
    ensures w in l.lists && 0 <= k < |l.lists[w]| && small == At(l.lists[w], k) && l.lists[w] == Chains(l)[w]
    ensures small - HEADER_SIZE in l.sizes && l.sizes[small - HEADER_SIZE] == r.extentSize
  {
  }

  lemma BlockRange(r: Region, z: Sizes, a: int)
    requires r.Valid() && Tiled(r, z) && a in z
    ensures 0 < r.lo <= a && r.MinBlock() <= z[a] && a + z[a] <= r.hi
    ensures HFER_SIZE < z[a] < FLAG_ALLOCATED
  {
    assert End(z, a) <= r.hi;
  }

  /** An allocation of `size` bytes with `left` bytes still to cover. */
  ghost predicate Progress(r: Region, l: Layout, m: Layout, w: Owner, size: int, left: int, first: int, small: int)
    requires r.extentSize > 0
  {
    && 0 <= left <= size && w in Chains(m) && first == At(Chains(m)[w], 0) && OthersKept(l, m, w)
    && (left > 0 ==> SmallOk(r, m, w, small) && Capacity(m, w) == Capacity(l, w) + size - left)
    && (left == 0 ==> Filled(r, m, w, Capacity(l, w) + size, small))
  }

  lemma ProgressStart(r: Region, l: Layout, w: Owner, size: int, first: int, small: int)
    requires r.extentSize > 0 && w in Chains(l) && first == At(Chains(l)[w], 0) && SmallOk(r, l, w, small) && 0 < size
    ensures Progress(r, l, l, w, size, size, first, small)
  {
    OthersRefl(l, w);
  }

  lemma ProgressMid(r: Region, l: Layout, m: Layout, w: Owner, size: int, left: int, first: int, small: int)
    requires r.extentSize > 0 && Progress(r, l, m, w, size, left, first, small)
    ensures w in Chains(m) && first == At(Chains(m)[w], 0) && OthersKept(l, m, w)
    ensures left > 0 ==> SmallOk(r, m, w, small) && Capacity(m, w) == Capacity(l, w) + size - left
    ensures left == 0 ==> Filled(r, m, w, Capacity(l, w) + size, small)
  {
  }

  lemma ProgressStep(r: Region, l: Layout, m: Layout, n: Layout, w: Owner, size: int, left: int, got: int,
                     first: int, small: int, first': int, small': int)
    requires r.extentSize > 0 && Progress(r, l, m, w, size, left, first, small)
    requires 0 < left && 0 < got && Stepped(r, m, n, w, left, got, first', small')
    ensures Progress(r, l, n, w, size, left - (if got < left then got else left), first', small')
  {
    hide SmallOk, Filled, OthersKept, Capacity, Chains;
    OthersTrans(l, m, n, w);
  }

  /** A chain may be opened empty, and closed once it is empty again. */
  lemma OpenInv(r: Region, hdr: map<int, Header>, ftr: map<int, int>, first: int, l: Layout, w: Owner)
    requires Inv(r, hdr, ftr, first, l, Limbo) && w.Used? && w !in l.lists
    ensures var m := l.(lists := l.lists[w := []]);
            && Inv(r, hdr, ftr, first, m, Limbo) && m.lists[Free] == l.lists[Free] && (NoLimbo(l) ==> NoLimbo(m))
            && Chains(m) == Chains(l)[w := []] && Held(m) == Held(l)
  {
    assert Chains(l.(lists := l.lists[w := []])) == Chains(l)[w := []];
  }

  lemma CloseInv(r: Region, hdr: map<int, Header>, ftr: map<int, int>, first: int, l: Layout, w: Owner)
    requires Inv(r, hdr, ftr, first, l, w) && w.Used? && w in Chains(l) && Chains(l)[w] == []
    ensures var m := l.(lists := l.lists - {w});
            && Inv(r, hdr, ftr, first, m, Limbo) && m.lists[Free] == l.lists[Free] && (NoLimbo(l) ==> NoLimbo(m))
            && Chains(m) == Chains(l) - {w} && Held(m) == Held(l) && OthersKept(l, m, w)
  {
    assert Chains(l.(lists := l.lists - {w})) == Chains(l) - {w};
  }

  lemma TearDownInv(r: Region, hdr: map<int, Header>, ftr: map<int, int>, first: int, l: Layout, w: Owner)
    requires Inv(r, hdr, ftr, first, l, Limbo) && w != Free
    ensures Inv(r, hdr, ftr, first, l, w)
  {
  }

  lemma PointersNotNull(r: Region, l: Layout, w: Owner)
    requires r.Valid() && Tiled(r, l.sizes) && Owned(l) && w in Chains(l)
    ensures w in l.lists && Chains(l)[w] == l.lists[w] && (At(Chains(l)[w], 0) == 0 ==> Chains(l)[w] == [])
  {
    AllPositive(r, l, w);
  }

  lemma NotNull(r: Region, hdr: map<int, Header>, ftr: map<int, int>, first: int, l: Layout, w: Owner)
    requires Inv(r, hdr, ftr, first, l, w) && w in Chains(l)
    ensures At(Chains(l)[w], 0) == 0 ==> Chains(l)[w] == []
  {
    PointersNotNull(r, l, w);
  }

  lemma ClosedChains(l: Layout, m: Layout, n: Layout, w: Owner)
    requires OthersKept(l, m, w) && Chains(n) == Chains(m) - {w}
    ensures Chains(n) == Chains(l) - {w}
  {
  }

  lemma OthersRefl(l: Layout, w: Owner)
    ensures OthersKept(l, l, w)
  {
  }

  /** What the header of a chain's first element says, and that the chain can be taken apart from there. */
  lemma ChainFront(r: Region, hdr: map<int, Header>, ftr: map<int, int>, first: int, l: Layout, w: Owner)
    requires Inv(r, hdr, ftr, first, l, w) && w.Used? && w in Chains(l) && Chains(l)[w] != [] && NoLimbo(l)
    ensures var a := Chains(l)[w][0];
            && w in l.lists && Chains(l)[w] == l.lists[w]
            && a in hdr && a in l.sizes && hdr[a].next == At(Chains(l)[w], 1)
            && hdr[a].sizeFlags % FLAG_ALLOCATED == l.sizes[a] - HFER_SIZE
            && Inv(r, hdr, ftr, first, Take(l, w, 0), w) && OnlyLimbo(Take(l, w, 0), a)
            && w in Chains(Take(l, w, 0)) && Chains(Take(l, w, 0)) == Chains(l)[w := RemoveAt(Chains(l)[w], 0)]
            && a in Held(l) && Held(l)[a].0 == l.sizes[a] && Held(Take(l, w, 0)) == Held(l) - {a}
  {
    ChainIsHeld(l, w);
    var a := Chains(l)[w][0];
    assert LinkAt(hdr, l.lists[w], 0);
    assert TagOf(hdr, ftr, a, l.sizes[a], w);
    BlockRange(r, l.sizes, a);
    TakeStale(r, hdr, ftr, first, l, w);
    TakeHeld(l, w, 0);
    assert Chains(Take(l, w, 0)) == Chains(l)[w := RemoveAt(Chains(l)[w], 0)];
  }

  lemma OthersTrans(l: Layout, m: Layout, n: Layout, w: Owner)
    requires OthersKept(l, m, w) && OthersKept(m, n, w)
    ensures OthersKept(l, n, w)
  {
  }

  /** Regions that can leave a chain with an extent that the value does not reach:
      long enough, and with a remainder near to 0 or to the extent size. */
  predicate Wasteful(r: Region)
    requires r.extentSize > 0
  {
    var e, rest, span := r.extentSize, Remainder(r), r.hi - r.lo;
    || (3 * e + rest <= span && (0 < rest < HFER_SIZE || e < rest + HFER_SIZE))
    || (4 * e + rest <= span && e < rest + 2 * HFER_SIZE)
  }

  lemma AboveMultiple(x: int, m: int, k: int)
    requires 0 < m && x % m == 0 && x > k * m
    ensures x >= (k + 1) * m
  {
    MulMod(k, m);
    ModAdd(x, k * m, m);
    assert x - k * m >= m;
  }

  /** Two different blocks: the extents are no longer than the region, and one of them does not end it. */
  lemma TwoBlocks(r: Region, z: Sizes, a: int, c: int)
    requires r.Valid() && Tiled(r, z) && a in z && c in z && a != c
    ensures r.extentSize <= z[a] && r.extentSize <= z[c]
    ensures End(z, a) != r.hi || End(z, c) != r.hi
    ensures z[a] + z[c] <= r.hi - r.lo
  {
    BlockRange(r, z, a);
    BlockRange(r, z, c);
    StartsApart(z, a, c);
    StartsApart(z, c, a);
  }

  lemma LastIsLarge(r: Region, z: Sizes, x: int)
    requires r.Valid() && Tiled(r, z) && Aligned(r, z) && x in z && r.extentSize <= z[x]
    ensures End(z, x) == r.hi ==> z[x] == r.extentSize + Remainder(r) || z[x] >= 2 * r.extentSize + Remainder(r)
    ensures End(z, x) != r.hi && z[x] != r.extentSize ==> z[x] >= 2 * r.extentSize
    ensures Remainder(r) == 0 && z[x] != r.extentSize ==> z[x] >= 2 * r.extentSize
    ensures 0 <= Remainder(r) < r.extentSize
  {
    WholeExtents(r, z, x);
    var e, m := End(z, x), r.extentSize;
    hide Tiled, Aligned;
    if e == r.hi {
      AboveMultiple(z[x] - Remainder(r), m, 0);
      if z[x] - Remainder(r) != m {
        AboveMultiple(z[x] - Remainder(r), m, 1);
      }
    }
    if z[x] % m == 0 && z[x] != m {
      AboveMultiple(z[x], m, 1);
    }
  }

  /** The head `h` and the last block `x` of a finished chain, by their sizes: the excess does not reach into `x`. */
  lemma LastReached(r: Region, h: int, hEnds: bool, x: int, xEnds: bool, excess: int, small: bool)
    requires r.Valid() && !Wasteful(r) && 0 <= Remainder(r) < r.extentSize
    requires r.extentSize <= h && r.extentSize <= x && h + x <= r.hi - r.lo && (!hEnds || !xEnds)
    requires if hEnds then h == r.extentSize + Remainder(r) || h >= 2 * r.extentSize + Remainder(r)
             else h == r.extentSize || h >= 2 * r.extentSize
    requires if xEnds then x == r.extentSize + Remainder(r) || x >= 2 * r.extentSize + Remainder(r)
             else x == r.extentSize || x >= 2 * r.extentSize
    requires !small ==> h != r.extentSize && x != r.extentSize
    requires var tail := if hEnds then Remainder(r) else 0;
             && excess < h - HFER_SIZE && excess < r.extentSize + tail
             && (small ==> excess < r.extentSize - HFER_SIZE
                           || (excess < HFER_SIZE + tail && excess < h - r.extentSize && h + x + r.extentSize <= r.hi - r.lo))
    ensures excess < x - HFER_SIZE
  {
    hide Remainder;
  }

  /** A finished chain never holds an extent that the value does not reach, unless the region is a wasteful one. */
  lemma LastExtentNeeded(r: Region, l: Layout, w: Owner, need: int, small: int)
    requires r.Valid() && Tiled(r, l.sizes) && Aligned(r, l.sizes) && Owned(l) && w.Used?
    requires Filled(r, l, w, need, small) && !Wasteful(r) && 0 < need
    ensures Cap(Payloads(l), Chains(l)[w][..|Chains(l)[w]| - 1]) < need
  {
    var s := Chains(l)[w];
    var n := |s| - 1;
    ChainIsHeld(l, w);
    CapRemoveAt(Payloads(l), s, n);
    assert RemoveAt(s, n) == s[..n];
    if n > 0 {
      var h, x := s[0], s[n];
      TwoBlocks(r, l.sizes, h, x);
      LastIsLarge(r, l.sizes, h);
      LastIsLarge(r, l.sizes, x);
      assert End(l.sizes, h) == h + l.sizes[h];
      hide Tiled, Aligned, Owned, Remainder, Wasteful;
      LastReached(r, l.sizes[h], End(l.sizes, h) == r.hi, l.sizes[x], End(l.sizes, x) == r.hi,
                  Capacity(l, w) - need, small != 0);
    }
  }

  /** The block sizes (tags included) of a chain being allocated, the bytes still wanted,
      and whether a one-extent block has been recorded. */
  datatype Turns = Turns(chain: seq<int>, left: int, small: bool)

  function DropLastSingle(extentSize: int, chain: seq<int>): seq<int> {
    if chain == [] then []
    else if chain[|chain| - 1] == extentSize then chain[..|chain| - 1]
    else DropLastSingle(extentSize, chain[..|chain| - 1]) + [chain[|chain| - 1]]
  }

  /** The arithmetic of one turn of the allocation loop that pops a block of `size` bytes. */
  function Turn(extentSize: int, t: Turns, size: int): Turns
    requires 0 < extentSize && 0 < t.left
  {
    var kept := FitSize(extentSize, size, t.left);
    var chain, small, payload := [kept] + t.chain, t.small || kept == extentSize, kept - HFER_SIZE;
    if payload > t.left && payload - t.left >= extentSize - HFER_SIZE && small
    then Turns(DropLastSingle(extentSize, chain), 0, small)
    else Turns(chain, t.left - (if payload < t.left then payload else t.left), small)
  }

  function AllTurns(extentSize: int, t: Turns, sizes: seq<int>): Turns
    requires 0 < extentSize
    decreases |sizes|
  {
    if sizes == [] || t.left <= 0 then t else AllTurns(extentSize, Turn(extentSize, t, sizes[0]), sizes[1..])
  }

  /** The block sizes along a chain. */
  ghost function SizesOf(l: Layout, w: Owner): seq<int> {
    if w in Chains(l)
    then seq(|Chains(l)[w]|, i requires 0 <= i < |Chains(l)[w]| => SizeOf(l, Chains(l)[w][i]))
    else []
  }

  ghost function SizeOf(l: Layout, a: int): int {
    if a in Held(l) then Held(l)[a].0 else 0
  }

  lemma {:induction false} DropsAt(extentSize: int, s: seq<int>, k: int)
    requires 0 <= k < |s| && s[k] == extentSize && (forall i | k < i < |s| :: s[i] != extentSize)
    ensures DropLastSingle(extentSize, s) == s[..k] + s[k + 1..]
  {
    var n := |s| - 1;
    if k < n {
      DropsAt(extentSize, s[..n], k);
      assert s[..k] + s[k + 1..] == (s[..n][..k] + s[..n][k + 1..]) + [s[n]];
    }
  }

  /** A turn that keeps what it chained is the arithmetic turn. */
  lemma TurnKeeps(r: Region, l: Layout, m: Layout, w: Owner, a: int, popped: int, want: int, small: int)
    requires r.extentSize > 0 && 0 < want && Chained(l, m, w, a, FitSize(r.extentSize, popped, want)) && a > 0
    requires var kept := FitSize(r.extentSize, popped, want);
             var small' := if small == 0 && kept == r.extentSize then a + HEADER_SIZE else small;
             small' != 0 ==> kept - HFER_SIZE <= want || kept - HFER_SIZE - want < r.extentSize - HFER_SIZE
    ensures var kept := FitSize(r.extentSize, popped, want);
            var small' := if small == 0 && kept == r.extentSize then a + HEADER_SIZE else small;
            var got := kept - HFER_SIZE;
            Turn(r.extentSize, Turns(SizesOf(l, w), want, small != 0), popped)
            == Turns(SizesOf(m, w), want - (if got < want then got else want), small' != 0)
  {
    hide FitSize;
    GrowsSizes(l, m, w, a, FitSize(r.extentSize, popped, want));
  }

  lemma GrowsSizes(l: Layout, m: Layout, w: Owner, a: int, size: int)
    requires Chained(l, m, w, a, size)
    ensures SizesOf(m, w) == [size] + SizesOf(l, w)
  {
    ChainIsHeld(l, w);
    var s, t := Chains(l)[w], Chains(m)[w];
    forall i | 0 <= i < |t| ensures SizesOf(m, w)[i] == ([size] + SizesOf(l, w))[i] {
      assert i > 0 ==> t[i] == s[i - 1];
    }
  }

  /** And so is a turn that gives back the recorded one-extent block. */
  lemma TurnGivesBack(r: Region, l: Layout, m: Layout, n: Layout, w: Owner, a: int, popped: int, want: int, small: int,
                      small': int, k: int)
    requires r.extentSize > 0 && 0 < want && Chained(l, m, w, a, FitSize(r.extentSize, popped, want)) && Owned(m)
    requires SmallAt(r, m, w, small', k) && small' != 0
    requires var kept := FitSize(r.extentSize, popped, want);
             && (small' == if small == 0 && kept == r.extentSize then a + HEADER_SIZE else small)
             && kept - HFER_SIZE > want && kept - HFER_SIZE - want >= r.extentSize - HFER_SIZE
    requires Chains(n) == Chains(m)[w := RemoveAt(Chains(m)[w], k)] && Held(n) == Held(m) - {Chains(m)[w][k]}
    ensures Turn(r.extentSize, Turns(SizesOf(l, w), want, small != 0), popped) == Turns(SizesOf(n, w), 0, true)
  {
    hide FitSize;
    GrowsSizes(l, m, w, a, FitSize(r.extentSize, popped, want));
    var z := SizesOf(m, w);
    DropsAt(r.extentSize, z, k);
    ShrinksSizes(m, n, w, k);
  }

  lemma ShrinksSizes(m: Layout, n: Layout, w: Owner, k: int)
    requires Owned(m) && w.Used? && w in Chains(m) && 0 <= k < |Chains(m)[w]|
    requires Chains(n) == Chains(m)[w := RemoveAt(Chains(m)[w], k)] && Held(n) == Held(m) - {Chains(m)[w][k]}
    ensures SizesOf(n, w) == SizesOf(m, w)[..k] + SizesOf(m, w)[k + 1..]
  {
    ChainIsHeld(m, w);
    var s, t := Chains(m)[w], Chains(n)[w];
    forall i | 0 <= i < |t| ensures SizesOf(n, w)[i] == (SizesOf(m, w)[..k] + SizesOf(m, w)[k + 1..])[i] {
      assert t[i] == s[if i < k then i else i + 1] != s[k];
    }
  }

  lemma {:induction false} TurnsSnoc(extentSize: int, t: Turns, sizes: seq<int>, size: int)
    requires 0 < extentSize && 0 < AllTurns(extentSize, t, sizes).left && 0 < t.left
    ensures AllTurns(extentSize, t, sizes + [size]) == Turn(extentSize, AllTurns(extentSize, t, sizes), size)
    decreases |sizes|
  {
    hide Turn;
    var long := sizes + [size];
    if sizes == [] {
      assert long[1..] == [];
    } else {
      assert long[1..] == sizes[1..] + [size];
      TurnsSnoc(extentSize, Turn(extentSize, t, sizes[0]), sizes[1..], size);
    }
  }

  lemma TurnsNone(extentSize: int, t: Turns)
    requires 0 < extentSize
    ensures AllTurns(extentSize, t, []) == t
  {
  }

  // ---------- reading the neighbours' tags

  lemma UniqueLeft(z: Sizes, p: int, c: int)
    requires Disjoint(z) && p in z && c in z && End(z, c) == End(z, p) && z[p] > 0 && z[c] > 0
    ensures c == p
  {
    StartsApart(z, c, p);
    StartsApart(z, p, c);
  }

  lemma NothingLeftOfRegion(r: Region, z: Sizes, c: int)
    requires r.Valid() && InRegion(r, z) && c in z
    ensures End(z, c) != r.lo && HFER_SIZE < z[c] < FLAG_ALLOCATED
  {
  }

  /** The footer before a block tells whether the block to its left is free, and where it starts. */
  lemma ReadLeft(r: Region, hdr: map<int, Header>, ftr: map<int, int>, l: Layout, a: int)
    requires r.Valid() && Tiled(r, l.sizes) && Tagged(hdr, ftr, l.sizes, l.owners) && Guarded(r, hdr, ftr)
    requires l.owners.Keys == l.sizes.Keys && a in l.sizes && OnlyLimbo(l, a)
    ensures a - FOOTER_SIZE in ftr
    ensures var tag := ftr[a - FOOTER_SIZE];
            var p := a - tag - HFER_SIZE;
            if tag < FLAG_ALLOCATED
            then p in l.sizes && End(l.sizes, p) == a && l.owners[p] == Free
            else LeftBusy(l, a)
  {
    hide InRegion, Contiguous, Disjoint;
    forall c | c in l.sizes ensures End(l.sizes, c) != r.lo && HFER_SIZE < l.sizes[c] < FLAG_ALLOCATED {
      NothingLeftOfRegion(r, l.sizes, c);
    }
    if a != r.lo {
      var p := Predecessor(r, l.sizes, a);
      assert TagOf(hdr, ftr, p, l.sizes[p], l.owners[p]);
      forall c | c in l.sizes && End(l.sizes, c) == a ensures c == p {
        UniqueLeft(l.sizes, p, c);
      }
    }
  }

  /** The header after a block tells whether the block to its right is free, and how long it is. */
  lemma ReadRight(r: Region, hdr: map<int, Header>, ftr: map<int, int>, l: Layout, a: int)
    requires r.Valid() && Tiled(r, l.sizes) && Tagged(hdr, ftr, l.sizes, l.owners) && Guarded(r, hdr, ftr)
    requires l.owners.Keys == l.sizes.Keys && a in l.sizes && OnlyLimbo(l, a)
    ensures l.sizes[a] > 0 && End(l.sizes, a) in hdr
    ensures var tag := hdr[End(l.sizes, a)].sizeFlags;
            if tag < FLAG_ALLOCATED
            then End(l.sizes, a) in l.sizes && l.sizes[End(l.sizes, a)] == tag + HFER_SIZE
                 && l.owners[End(l.sizes, a)] == Free
            else RightBusy(l, a)
  {
    var e := End(l.sizes, a);
    if e != r.hi {
      assert End(l.sizes, e) <= r.hi;
      assert TagOf(hdr, ftr, e, l.sizes[e], l.owners[e]);
    }
  }

  /** Both neighbours of a free block are in use. */
  lemma FreeIsBordered(l: Layout, p: int)
    requires l.owners.Keys == l.sizes.Keys && Coalesced(l.sizes, l.owners) && p in l.sizes && l.owners[p] == Free
    ensures LeftBusy(l, p) && RightBusy(l, p)
  {
    assert End(l.sizes, p) == p + l.sizes[p];
  }

  lemma AbsorbLeft(r: Region, hdr: map<int, Header>, ftr: map<int, int>, first: int, l: Layout, ex: Owner,
                   a: int, k: int)
    requires Owned(l) && Coalesced(l.sizes, l.owners) && a in l.sizes && OnlyLimbo(l, a)
    requires 0 <= k < |l.lists[Free]| && l.lists[Free][k] in l.sizes && End(l.sizes, l.lists[Free][k]) == a
    requires Inv(r, hdr, ftr, first, Take(l, Free, k), ex)
    ensures var p, m := l.lists[Free][k], Join(Take(l, Free, k), l.lists[Free][k]);
            && Inv(r, hdr, ftr, first, m, ex) && m.owners.Keys == m.sizes.Keys
            && p in m.sizes && m.sizes[p] == l.sizes[p] + l.sizes[a]
            && OnlyLimbo(m, p) && LeftBusy(m, p) && SameChains(l, m) && m.lists == Take(l, Free, k).lists
  {
    var p, t := l.lists[Free][k], Take(l, Free, k);
    var m := Join(t, p);
    JoinInv(r, hdr, ftr, first, t, ex, p);
    TakeHeld(l, Free, k);
    assert End(l.sizes, p) > p;
    JoinHeld(t, p);
    assert Chains(m) == Chains(l);
    FreeIsBordered(l, p);
    forall c | c in m.sizes && End(m.sizes, c) == p ensures m.owners[c] != Free {
      assert End(m.sizes, c) == End(l.sizes, c);
    }
  }

  lemma AbsorbRight(r: Region, hdr: map<int, Header>, ftr: map<int, int>, first: int, l: Layout, ex: Owner,
                    a: int, k: int)
    requires Owned(l) && Coalesced(l.sizes, l.owners) && a in l.sizes && OnlyLimbo(l, a) && LeftBusy(l, a)
    requires End(l.sizes, a) in l.sizes && l.sizes[a] > 0
    requires 0 <= k < |l.lists[Free]| && l.lists[Free][k] == End(l.sizes, a)
    requires Inv(r, hdr, ftr, first, Take(l, Free, k), ex)
    ensures var m := Join(Take(l, Free, k), a);
            && Inv(r, hdr, ftr, first, m, ex) && m.owners.Keys == m.sizes.Keys
            && a in m.sizes && m.sizes[a] == l.sizes[a] + l.sizes[End(l.sizes, a)]
            && OnlyLimbo(m, a) && LeftBusy(m, a) && RightBusy(m, a) && SameChains(l, m)
            && m.lists == Take(l, Free, k).lists
  {
    var e, t := End(l.sizes, a), Take(l, Free, k);
    var m := Join(t, a);
    JoinInv(r, hdr, ftr, first, t, ex, a);
    TakeHeld(l, Free, k);
    JoinHeld(t, a);
    assert Chains(m) == Chains(l);
    FreeIsBordered(l, e);
    assert End(m.sizes, a) == End(l.sizes, e);
    forall c | c in m.sizes && End(m.sizes, c) == a ensures m.owners[c] != Free {
      assert c != a ==> End(m.sizes, c) == End(l.sizes, c);
      assert End(m.sizes, a) > a;
    }
  }

  // ---------- the extents of a value

  /** The payload areas of a value's chain, in chain order. */
  ghost function Exts(l: Layout, w: Owner): (e: seq<Extent>)
    requires w in Chains(l)
    ensures |e| == |Chains(l)[w]|
  {
    var s := Chains(l)[w];
    seq(|s|, i requires 0 <= i < |s| => Extent(s[i] + HEADER_SIZE, if s[i] in Payloads(l) then Payloads(l)[s[i]] else 0))
  }

  lemma ReadChain(r: Region, hdr: map<int, Header>, ftr: map<int, int>, first: int, l: Layout, w: Owner, i: int)
    requires Inv(r, hdr, ftr, first, l, Limbo) && w.Used? && w in Chains(l) && 0 <= i < |Chains(l)[w]|
    ensures var a := At(Chains(l)[w], i) - HEADER_SIZE;
            && a in hdr && hdr[a].next == At(Chains(l)[w], i + 1)
            && Exts(l, w)[i] == Extent(a + HEADER_SIZE, hdr[a].sizeFlags % FLAG_ALLOCATED)
  {
    ChainIsHeld(l, w);
    var a := Chains(l)[w][i];
    assert LinkAt(hdr, l.lists[w], i);
    assert TagOf(hdr, ftr, a, l.sizes[a], w);
    BlockRange(r, l.sizes, a);
  }

  /** Payload areas lie inside the region, and those of different blocks do not overlap. */
  lemma ExtentsApart(r: Region, l: Layout, w: Owner, i: int, v: Owner, j: int)
    requires r.Valid() && Tiled(r, l.sizes) && Owned(l)
    requires w.Used? && w in Chains(l) && 0 <= i < |Chains(l)[w]| && v.Used? && v in Chains(l)
    requires 0 <= j < |Chains(l)[v]|
    requires w != v || i != j
    ensures var x, y := Exts(l, w)[i], Exts(l, v)[j];
            && r.lo + HEADER_SIZE <= x.ptr && 0 < x.size && x.ptr + x.size + FOOTER_SIZE <= r.hi
            && (x.ptr + x.size + HFER_SIZE <= y.ptr || y.ptr + y.size + HFER_SIZE <= x.ptr)
  {
    ChainIsHeld(l, w);
    ChainIsHeld(l, v);
    var a, c := Chains(l)[w][i], Chains(l)[v][j];
    assert a != c;
    BlockRange(r, l.sizes, a);
    StartsApart(l.sizes, a, c);
    StartsApart(l.sizes, c, a);
  }

  lemma OtherHeld(l: Layout, m: Layout, w: Owner, a: int)
    requires OthersKept(l, m, w) && a in Held(l) && Held(l)[a].1 != w
    ensures a in Held(m) && Held(m)[a] == Held(l)[a]
  {
  }

  lemma HeldBoth(l: Layout, m: Layout, w: Owner, c: int)
    requires OthersKept(l, m, w)
    ensures c in Held(l) && Held(l)[c].1 != w ==> c in Held(m) && Held(m)[c] == Held(l)[c]
    ensures c in Held(m) && Held(m)[c].1 != w ==> c in Held(l) && Held(m)[c] == Held(l)[c]
  {
  }

  /** Neither do its capacity and its one-extent blocks. */
  lemma ChainSteady(r: Region, l: Layout, m: Layout, w: Owner, v: Owner, small: int)
    requires Owned(l) && OthersKept(l, m, w) && v.Used? && v != w && v in Chains(l)
    ensures v in Chains(m) && Chains(m)[v] == Chains(l)[v] && Capacity(m, v) == Capacity(l, v)
    ensures SmallOk(r, l, v, small) ==> SmallOk(r, m, v, small)
  {
    hide Held;
    ExtsKept(l, m, w, v);
    ChainIsHeld(l, v);
    var s := Chains(l)[v];
    forall i | 0 <= i < |s| ensures s[i] in Held(m) && Held(m)[s[i]] == Held(l)[s[i]] {
      OtherHeld(l, m, w, s[i]);
    }
    CapSame(Payloads(l), Payloads(m), s);
    if small != 0 && SmallOk(r, l, v, small) {
      var k :| SmallAt(r, l, v, small, k);
      assert SmallAt(r, m, v, small, k);
    }
  }

  /** A chain's extents depend on that chain alone. */
  lemma ExtsKept(l: Layout, m: Layout, w: Owner, v: Owner)
    requires Owned(l) && OthersKept(l, m, w) && v.Used? && v != w && v in Chains(l)
    ensures v in Chains(m) && Exts(m, v) == Exts(l, v) && Chains(m)[v] == Chains(l)[v]
  {
    hide Held;
    ChainIsHeld(l, v);
    assert v in Chains(l) - {w} && v in Chains(m) - {w};
    assert Chains(m)[v] == (Chains(m) - {w})[v] == Chains(l)[v];
    var s := Chains(l)[v];
    forall i | 0 <= i < |s| ensures Exts(m, v)[i] == Exts(l, v)[i] {
      assert s[i] in Held(l) && Held(l)[s[i]].1 == v;
      OtherHeld(l, m, w, s[i]);
    }
  }

  // ---------- a new heap

  lemma SingleTiled(r: Region)
    requires r.Valid()
    ensures Tiled(r, map[r.lo := r.hi - r.lo])
  {
    assert End(map[r.lo := r.hi - r.lo], r.lo) == r.hi;
  }

  lemma FreshInv(r: Region, hdr: map<int, Header>, ftr: map<int, int>, l: Layout)
    requires r.Valid() && Guarded(r, hdr, ftr) && TagOf(hdr, ftr, r.lo, r.hi - r.lo, Free)
    requires hdr[r.lo].next == 0 && hdr[r.lo].prev == 0
    requires l == Layout(map[r.lo := r.hi - r.lo], map[r.lo := Free], map[Free := [r.lo]])
    ensures Inv(r, hdr, ftr, r.lo + HEADER_SIZE, l, Limbo) && NoLimbo(l) && Chains(l) == map[] && Held(l) == map[]
  {
    SingleTiled(r);
    assert (r.lo - r.lo) % r.extentSize == 0;
    assert LinkAt(hdr, [r.lo], 0);
  }

  // ---------- what the invariant means for a reader

  lemma ConstantDistinct(s: seq<int>, x: int)
    requires Distinct(s) && (forall i | 0 <= i < |s| :: s[i] == x)
    ensures |s| <= 1
  {
    var y := if |s| > 1 then s[1] else x + 1;
    assert |s| > 0 ==> s[0] != y;
  }

  /** With nothing allocated, the region is one free block again. */
  lemma EmptyHeap(r: Region, hdr: map<int, Header>, ftr: map<int, int>, first: int, l: Layout)
    requires Inv(r, hdr, ftr, first, l, Limbo)
    requires forall a | a in l.owners :: l.owners[a] == Free
    ensures l.sizes == map[r.lo := r.hi - r.lo] && l.lists[Free] == [r.lo]
  {
    var e := End(l.sizes, r.lo);
    assert e == r.hi;
    forall a | a in l.sizes ensures a == r.lo {
      StartsApart(l.sizes, r.lo, a);
      assert End(l.sizes, a) > a;
    }
    var s := l.lists[Free];
    assert l.owners[r.lo] == Free && r.lo in s;
    assert forall i | 0 <= i < |s| :: s[i] == r.lo;
    ConstantDistinct(s, r.lo);
  }
}
