/** Nothing is lost: payloads, tags and free blocks add up to the region, so a drained heap has room for known sizes. */
module HeapConservation {
  import opened Sequences
  import opened HeapLayout
  import opened HeapInvariant
  import opened Sums

  /** The blocks that start at `x` or later. */
  ghost function From(z: Sizes, x: int): Sizes {
    map a | a in z && x <= a :: z[a]
  }

  /** Payloads, tags and free blocks from some address on, and the number of blocks there. */
  ghost function BytesFrom(l: Layout, x: int): int {
    Total(From(Payloads(l), x)) + HFER_SIZE * |From(Payloads(l), x)| + Total(From(FreeBlocks(l), x))
  }

  ghost function CountFrom(l: Layout, x: int): nat {
    |From(Payloads(l), x)| + |From(FreeBlocks(l), x)|
  }

  lemma FromNext(z: Sizes, m: Sizes, x: int, e: int)
    requires m.Keys <= z.Keys && x < e && (forall a | a in z :: a <= x || e <= a)
    ensures x in m ==> From(m, x) == From(m, e)[x := m[x]] && x !in From(m, e)
    ensures x !in m ==> From(m, x) == From(m, e)
  {
  }

  /** One block further: its size is accounted for, once. */
  lemma OneBlock(r: Region, l: Layout, x: int)
    requires r.Valid() && Tiled(r, l.sizes) && Owned(l) && NoLimbo(l) && x in l.sizes
    ensures BytesFrom(l, x) == l.sizes[x] + BytesFrom(l, x + l.sizes[x])
    ensures CountFrom(l, x) == 1 + CountFrom(l, x + l.sizes[x])
  {
    hide Total, From, Tiled, Owned, NoLimbo, Payloads, FreeBlocks;
    var e, p, f := x + l.sizes[x], Payloads(l), FreeBlocks(l);
    BlockApart(r, l, x);
    FromNext(l.sizes, p, x, e);
    FromNext(l.sizes, f, x, e);
    if x in p {
      TotalAdd(From(p, e), x, p[x]);
    } else {
      TotalAdd(From(f, e), x, f[x]);
    }
  }

  /** A block is allocated or free, not both, and no other block starts inside it. */
  lemma BlockApart(r: Region, l: Layout, x: int)
    requires r.Valid() && Tiled(r, l.sizes) && Owned(l) && NoLimbo(l) && x in l.sizes
    ensures 0 < l.sizes[x] && (forall a | a in l.sizes :: a <= x || x + l.sizes[x] <= a)
    ensures Payloads(l).Keys <= l.sizes.Keys && FreeBlocks(l).Keys <= l.sizes.Keys
    ensures x in Payloads(l) <==> x !in FreeBlocks(l)
    ensures x in Payloads(l) ==> Payloads(l)[x] == l.sizes[x] - HFER_SIZE
    ensures x in FreeBlocks(l) ==> FreeBlocks(l)[x] == l.sizes[x]
  {
    BlockRange(r, l.sizes, x);
    forall a | a in l.sizes ensures a <= x || x + l.sizes[x] <= a { StartsApart(l.sizes, x, a); }
  }

  lemma {:induction false} TilesFrom(r: Region, l: Layout, x: int)
    requires r.Valid() && Tiled(r, l.sizes) && Owned(l) && NoLimbo(l) && (x in l.sizes || x == r.hi)
    ensures BytesFrom(l, x) == r.hi - x
    ensures CountFrom(l, x) * r.MinBlock() <= r.hi - x
    decreases r.hi - x
  {
    hide BytesFrom, CountFrom, Owned, NoLimbo;
    if x in l.sizes {
      BlockRange(r, l.sizes, x);
      assert End(l.sizes, x) == x + l.sizes[x];
      OneBlock(r, l, x);
      TilesFrom(r, l, x + l.sizes[x]);
      Distribute(CountFrom(l, x + l.sizes[x]), r.MinBlock());
    } else {
      NothingBeyond(r, l);
    }
  }

  lemma NothingBeyond(r: Region, l: Layout)
    requires r.Valid() && Tiled(r, l.sizes)
    ensures BytesFrom(l, r.hi) == 0 && CountFrom(l, r.hi) == 0
  {
    forall a | a in l.sizes ensures a < r.hi { BlockRange(r, l.sizes, a); }
    assert From(Payloads(l), r.hi) == map[] && From(FreeBlocks(l), r.hi) == map[];
  }

  lemma Distribute(n: int, m: int)
    ensures (1 + n) * m == n * m + m
  {
  }

  /** Every byte of the region is payload, one of the 32 tag bytes of an allocated block, or in a free block. */
  lemma Conservation(r: Region, l: Layout)
    requires r.Valid() && Tiled(r, l.sizes) && Owned(l) && NoLimbo(l)
    ensures Total(Payloads(l)) + HFER_SIZE * |Payloads(l)| + Total(FreeBlocks(l)) == r.hi - r.lo
    ensures (|Payloads(l)| + |FreeBlocks(l)|) * r.MinBlock() <= r.hi - r.lo
  {
    hide Total;
    TilesFrom(r, l, r.lo);
    forall a | a in l.sizes ensures r.lo <= a { BlockRange(r, l.sizes, a); }
    assert From(Payloads(l), r.lo) == Payloads(l) && From(FreeBlocks(l), r.lo) == FreeBlocks(l);
  }

  lemma {:induction false} CapBelow(p: map<int, int>, s: seq<int>)
    requires Distinct(s) && (forall i | 0 <= i < |s| :: s[i] in p) && (forall a | a in p :: 0 <= p[a])
    ensures Cap(p, s) <= Total(p)
    ensures (forall a | a in p :: a in s) ==> Cap(p, s) == Total(p)
  {
    if s == [] {
      NotNegative(p);
      assert (forall a | a in p :: a in s) ==> p == map[];
    } else {
      var q := p - {s[0]};
      TotalRemove(p, s[0]);
      CapBelow(q, s[1..]);
      CapSame(p, q, s[1..]);
      assert s == [s[0]] + s[1..];
    }
  }

  /** What `bytes` bytes of blocks hold at least, however they are cut up. */
  function RoomIn(r: Region, bytes: int): int
    requires 0 < r.MinBlock()
  {
    bytes - HFER_SIZE * (bytes / r.MinBlock())
  }

  /** What a region holds in one chain, however it was cut up. */
  function GuaranteedRoom(r: Region): int
    requires 0 < r.MinBlock()
  {
    RoomIn(r, r.hi - r.lo)
  }

  /** The blocks of some values. */
  ghost function HeldBy(l: Layout, ids: set<int>): map<int, (int, Owner)> {
    map a | a in Held(l) && Held(l)[a].1.Used? && Held(l)[a].1.id in ids :: Held(l)[a]
  }

  /** The bytes that they take, tags included. */
  ghost function Footprint(l: Layout, ids: set<int>): int {
    Total(WithoutTags(HeldBy(l, ids))) + HFER_SIZE * |WithoutTags(HeldBy(l, ids))|
  }

  /** No chain holds more than the region less one pair of tags. */
  lemma ChainBound(r: Region, l: Layout, w: Owner)
    requires r.Valid() && Tiled(r, l.sizes) && Owned(l) && NoLimbo(l) && w.Used? && w in Chains(l) && Chains(l)[w] != []
    ensures Capacity(l, w) <= r.hi - r.lo - HFER_SIZE
  {
    hide Total, Tiled, Owned, NoLimbo, Held, FreeBlocks, From, Cap, Payloads, Chains;
    HeldPayloads(r, l, w);
    CapBelow(Payloads(l), Chains(l)[w]);
    Conservation(r, l);
    FreeNotNegative(r, l);
    assert Chains(l)[w][0] in Payloads(l);
  }

  lemma FreeNotNegative(r: Region, l: Layout)
    requires r.Valid() && Tiled(r, l.sizes)
    ensures 0 <= Total(FreeBlocks(l))
  {
    forall a | a in FreeBlocks(l) ensures 0 <= FreeBlocks(l)[a] { BlockRange(r, l.sizes, a); }
    NotNegative(FreeBlocks(l));
  }

  ghost function Elems(s: seq<int>): set<int> {
    set x | x in s
  }

  lemma {:induction false} CapSplit(p: map<int, int>, s: seq<int>)
    requires Distinct(s) && (forall i | 0 <= i < |s| :: s[i] in p)
    ensures Total(p) == Cap(p, s) + Total(p - Elems(s)) && |p| == |s| + |p - Elems(s)|
  {
    hide Total, Elems;
    if s == [] {
      NoElems(p);
    } else {
      var q := p - {s[0]};
      TotalRemove(p, s[0]);
      assert p == q[s[0] := p[s[0]]];
      CapSplit(q, s[1..]);
      CapSame(p, q, s[1..]);
      DropElems(p, s);
    }
  }

  lemma NoElems(p: map<int, int>)
    ensures p - Elems([]) == p
  {
    assert Elems([]) == {};
  }

  lemma DropElems(p: map<int, int>, s: seq<int>)
    requires s != []
    ensures p - Elems(s) == p - {s[0]} - Elems(s[1..])
  {
    assert s == [s[0]] + s[1..];
  }

  lemma {:induction false} CapAtLeast(p: map<int, int>, s: seq<int>, m: int)
    requires forall i | 0 <= i < |s| :: s[i] in p && m <= p[s[i]] + HFER_SIZE
    ensures |s| * m <= Cap(p, s) + HFER_SIZE * |s|
  {
    if s != [] {
      CapAtLeast(p, s[1..], m);
      Distribute(|s| - 1, m);
    }
  }

  /** The blocks that are not in the chain of `w` are those of the other values. */
  lemma RestOfBlocks(l: Layout, w: Owner, ids: set<int>)
    requires Owned(l) && w.Used? && w in Chains(l) && w.id !in ids
    requires forall v | v in Chains(l) :: v.Used? && (v == w || v.id in ids)
    ensures Payloads(l) - Elems(Chains(l)[w]) == WithoutTags(HeldBy(l, ids))
  {
    ChainIsHeld(l, w);
    forall a | a in Held(l) ensures Held(l)[a].1 in Chains(l) && (a in Chains(l)[w] <==> Held(l)[a].1 == w) {
      assert l.owners[a] in l.lists;
    }
  }

  lemma NoFreeBlocks(l: Layout)
    requires Owned(l) && l.lists[Free] == []
    ensures Total(FreeBlocks(l)) == 0
  {
    forall a | a in l.owners ensures l.owners[a] != Free {
      assert l.owners[a] != Limbo ==> a in l.lists[l.owners[a]];
    }
    assert FreeBlocks(l) == map[];
  }

  /** With nothing free, a chain holds at least the room in all that the other values do not take. */
  lemma Exhausted(r: Region, l: Layout, w: Owner, ids: set<int>)
    requires r.Valid() && Tiled(r, l.sizes) && Owned(l) && NoLimbo(l) && l.lists[Free] == []
    requires w.Used? && w in Chains(l) && w.id !in ids && (forall v | v in Chains(l) :: v.Used? && (v == w || v.id in ids))
    ensures RoomIn(r, r.hi - r.lo - Footprint(l, ids)) <= Capacity(l, w)
  {
    hide Total, Tiled, Owned, NoLimbo, Held, FreeBlocks, Cap, Payloads, Chains, HeldBy, Elems;
    var s, p, bytes := Chains(l)[w], Payloads(l), r.hi - r.lo - Footprint(l, ids);
    HeldPayloads(r, l, w);
    CapSplit(p, s);
    RestOfBlocks(l, w, ids);
    Conservation(r, l);
    NoFreeBlocks(l);
    CapAtLeast(p, s, r.MinBlock());
    AtMost(|s|, bytes, r.MinBlock());
  }

  /** A chain that owns every block has at least the guaranteed room. */
  lemma FullChain(r: Region, l: Layout, w: Owner)
    requires r.Valid() && Tiled(r, l.sizes) && Owned(l) && NoLimbo(l) && w.Used? && Chains(l).Keys == {w}
    requires l.lists[Free] == []
    ensures GuaranteedRoom(r) <= Capacity(l, w)
  {
    hide Tiled, Owned, NoLimbo, Capacity, RoomIn, Chains, Footprint;
    Exhausted(r, l, w, {});
    NoFootprint(l);
  }

  lemma NoFootprint(l: Layout)
    ensures Footprint(l, {}) == 0
  {
    assert WithoutTags(HeldBy(l, {})) == map[];
  }

  lemma SameFootprint(l: Layout, m: Layout, ids: set<int>)
    requires HeldBy(m, ids) == HeldBy(l, ids)
    ensures Footprint(m, ids) == Footprint(l, ids)
  {
  }

  lemma HeldPayloads(r: Region, l: Layout, w: Owner)
    requires r.Valid() && Tiled(r, l.sizes) && Owned(l) && w.Used? && w in Chains(l)
    ensures Distinct(Chains(l)[w]) && (forall a | a in Payloads(l) :: 0 <= Payloads(l)[a])
    ensures forall i | 0 <= i < |Chains(l)[w]| ::
              Chains(l)[w][i] in Payloads(l) && r.MinBlock() <= Payloads(l)[Chains(l)[w][i]] + HFER_SIZE
  {
    ChainIsHeld(l, w);
    forall a | a in Payloads(l) ensures 0 <= Payloads(l)[a] && r.MinBlock() <= Payloads(l)[a] + HFER_SIZE {
      BlockRange(r, l.sizes, a);
    }
  }

  lemma AtMost(n: nat, span: int, m: int)
    requires 0 < m && n * m <= span
    ensures n <= span / m
  {
    if n > span / m {
      assert n * m >= (span / m + 1) * m by { MulLe(span / m + 1, n, m); }
    }
  }

  /** What happens to other values does not matter. */
  lemma HeldByKept(l: Layout, m: Layout, w: Owner, ids: set<int>)
    requires OthersKept(l, m, w) && w.Used? && w.id !in ids
    ensures HeldBy(m, ids) == HeldBy(l, ids)
  {
    hide Held, OthersKept;
    forall a ensures a in HeldBy(m, ids) <==> a in HeldBy(l, ids)
             ensures a in HeldBy(m, ids) ==> HeldBy(m, ids)[a] == HeldBy(l, ids)[a]
    {
      HeldBoth(l, m, w, a);
    }
  }

  lemma HeldByFewer(l: Layout, m: Layout, ids: set<int>, fewer: set<int>)
    requires HeldBy(m, ids) == HeldBy(l, ids) && fewer <= ids
    ensures HeldBy(m, fewer) == HeldBy(l, fewer)
  {
    assert HeldBy(l, fewer) == map a | a in HeldBy(l, ids) && HeldBy(l, ids)[a].1.id in fewer :: HeldBy(l, ids)[a];
    assert HeldBy(m, fewer) == map a | a in HeldBy(m, ids) && HeldBy(m, ids)[a].1.id in fewer :: HeldBy(m, ids)[a];
  }
}
