/** Runs of the allocator from a new heap, and for which regions one of them leaves a chain with an extent too many. */
module HeapRuns {
  import opened HeapLayout
  import opened HeapInvariant
  import opened Bytes
  import opened Sums
  import opened Values
  import CacheLinks
  import H = Heap

  /** The value of `need` bytes does not reach the last extent of its chain. */
  ghost predicate Superfluous(l: Layout, w: Owner, need: int) {
    && w in Chains(l) && Chains(l)[w] != []
    && need <= Cap(Payloads(l), Chains(l)[w][..|Chains(l)[w]| - 1])
  }

  ghost predicate Settled(r: Region, l: Layout) {
    && r.Valid() && Tiled(r, l.sizes) && Aligned(r, l.sizes) && Owned(l) && NoLimbo(l) && Coalesced(l.sizes, l.owners)
  }

  // ---------- where the one free block is

  lemma FreeUnlessHeld(m: Layout, c: int)
    requires Owned(m) && NoLimbo(m) && c in m.sizes
    ensures c in m.owners && (c in Held(m) <==> m.owners[c] != Free)
    ensures c in m.lists[Free] <==> c !in Held(m)
  {
  }

  /** A stretch without allocated blocks between allocated ones is one free block. */
  lemma Gap(r: Region, m: Layout, s: int, t: int)
    requires Settled(r, m) && s < t && s in m.sizes && (t == r.hi || t in m.sizes)
    requires forall c | c in m.sizes :: c in Held(m) <==> c < s || t <= c
    ensures m.sizes[s] == t - s && m.lists[Free] == [s]
  {
    var e := End(m.sizes, s);
    BlockRange(r, m.sizes, s);
    if t in m.sizes {
      StartsApart(m.sizes, s, t);
      BlockRange(r, m.sizes, t);
    }
    FreeUnlessHeld(m, s);
    assert e in m.sizes && e < t ==> e !in Held(m);
    if e in m.sizes {
      FreeUnlessHeld(m, e);
    }
    assert e == t;
    forall c | c in m.sizes && c !in Held(m) ensures c == s { StartsApart(m.sizes, s, c); }
    var f := m.lists[Free];
    forall i | 0 <= i < |f| ensures f[i] == s { assert f[i] in m.sizes; FreeUnlessHeld(m, f[i]); }
    ConstantDistinct(f, s);
  }

  /** Outside the one block `a` of `l` that changed, the blocks of `m` are allocated as before. */
  lemma StaysHeld(r: Region, l: Layout, m: Layout, a: int, c: int)
    requires Settled(r, l) && Settled(r, m) && a in l.sizes && c in m.sizes && (c < a || End(l.sizes, a) <= c)
    requires OthersStay(l, m, a)
    ensures c in Held(m) && c in l.sizes && l.sizes[c] == m.sizes[c]
  {
    BlockRange(r, m.sizes, c);
    var p := Covered(r, l.sizes, r.lo, c);
    StartsApart(m.sizes, p, c);
    assert End(m.sizes, p) == End(l.sizes, p);
  }

  /** The free list holds one block, of this place and size. */
  ghost predicate Sole(l: Layout, s: int, n: int) {
    Free in l.lists && l.lists[Free] == [s] && s in l.sizes && l.sizes[s] == n
  }

  lemma SoleOrHeld(l: Layout, a: int, p: int)
    requires Owned(l) && NoLimbo(l) && p in l.sizes && p != a
    requires l.lists[Free] == [] || l.lists[Free] == [a]
    ensures p in Held(l)
  {
    FreeUnlessHeld(l, p);
  }

  /** Allocating `k` bytes of the only free block leaves the rest of it as the only free block, or none. */
  lemma SoleTaken(r: Region, l: Layout, m: Layout, w: Owner, s: int, n: int, k: int)
    requires Settled(r, l) && Settled(r, m) && Sole(l, s, n) && Chained(l, m, w, s, k) && 0 < k <= n
    ensures if k < n then Sole(m, s + k, n - k) else Free in m.lists && m.lists[Free] == []
  {
    hide Settled;
    var e := End(l.sizes, s);
    SettledFacts(r, l);
    SettledFacts(r, m);
    TakenBlocks(r, l, m, w, s, n, k);
    if k < n {
      Gap(r, m, s + k, s + n);
    } else {
      NoneFree(m);
    }
  }

  lemma SettledFacts(r: Region, l: Layout)
    requires Settled(r, l)
    ensures r.Valid() && Tiled(r, l.sizes) && Aligned(r, l.sizes) && Owned(l) && NoLimbo(l)
  {
  }

  lemma NoneFree(m: Layout)
    requires Owned(m) && NoLimbo(m) && (forall c | c in m.sizes :: c in Held(m))
    ensures m.lists[Free] == []
  {
    var f := m.lists[Free];
    var c := if f == [] then 0 else f[0];
    assert c in m.sizes ==> c in Held(m);
    if f != [] {
      FreeListed(m, 0);
    }
  }

  lemma FreeListed(m: Layout, i: int)
    requires Owned(m) && 0 <= i < |m.lists[Free]|
    ensures m.lists[Free][i] in m.sizes && m.lists[Free][i] !in Held(m)
  {
  }

  /** Every block but the one cut keeps its owner. */
  ghost predicate OthersStay(l: Layout, m: Layout, s: int) {
    forall p | p in l.sizes && p != s :: p in Held(l) && p in Held(m) && Held(m)[p] == Held(l)[p]
  }

  lemma TakenBlock(r: Region, l: Layout, m: Layout, s: int, n: int, k: int, c: int)
    requires Settled(r, l) && Settled(r, m) && OthersStay(l, m, s) && s in l.sizes && l.sizes[s] == n
    requires s in m.sizes && m.sizes[s] == k && 0 < k <= n && c in m.sizes && s in Held(m)
    requires c in Held(m) && c != s ==> c in Held(l)
    ensures c in Held(m) <==> c < s + k || s + n <= c
  {
    hide Tiled, Aligned, Coalesced, NoLimbo;
    assert End(l.sizes, s) == s + n && End(m.sizes, s) == s + k;
    SettledFacts(r, l);
    SettledFacts(r, m);
    if c < s || s + n <= c {
      StaysHeld(r, l, m, s, c);
    } else {
      DisjointFacts(r, m.sizes, s, c);
      if c in l.sizes {
        DisjointFacts(r, l.sizes, s, c);
      }
    }
  }

  lemma DisjointFacts(r: Region, z: Sizes, s: int, c: int)
    requires Tiled(r, z) && s in z && c in z
    ensures c <= s || s + z[s] <= c
  {
    StartsApart(z, s, c);
  }

  lemma TakenHeld(r: Region, l: Layout, m: Layout, w: Owner, s: int, n: int, k: int)
    requires Settled(r, l) && Settled(r, m) && Sole(l, s, n) && Chained(l, m, w, s, k) && 0 < k <= n
    ensures OthersStay(l, m, s) && s in l.sizes && l.sizes[s] == n && s in m.sizes && m.sizes[s] == k && s in Held(m)
    ensures forall c | c in Held(m) && c != s :: c in Held(l)
  {
    hide Tiled, Aligned, Coalesced, Owned, Chains;
    assert s in Held(m) && Held(m)[s] == (k, w);
    forall p | p in l.sizes && p != s ensures p in Held(l) { SoleOrHeld(l, s, p); }
  }

  lemma TakenBlocks(r: Region, l: Layout, m: Layout, w: Owner, s: int, n: int, k: int)
    requires Settled(r, l) && Settled(r, m) && Sole(l, s, n) && Chained(l, m, w, s, k) && 0 < k <= n
    ensures forall c | c in m.sizes :: c in Held(m) <==> c < s + k || s + n <= c
    ensures k < n ==> s + k in m.sizes && (s + n == r.hi || s + n in m.sizes)
  {
    hide Settled, Sole, Chained, OthersStay;
    TakenHeld(r, l, m, w, s, n, k);
    forall c | c in m.sizes ensures c in Held(m) <==> c < s + k || s + n <= c {
      TakenBlock(r, l, m, s, n, k, c);
    }
    CutEnds(r, l, m, s, n, k);
  }

  lemma CutEnds(r: Region, l: Layout, m: Layout, s: int, n: int, k: int)
    requires Settled(r, l) && Settled(r, m) && OthersStay(l, m, s) && s in l.sizes && l.sizes[s] == n
    requires s in m.sizes && m.sizes[s] == k && 0 < k <= n
    ensures k < n ==> s + k in m.sizes && (s + n == r.hi || s + n in m.sizes)
  {
    BlockRange(r, l.sizes, s);
    assert End(l.sizes, s) == s + n && End(m.sizes, s) == s + k;
  }

  /** Freeing the only block of a value in a full heap makes it the only free block. */
  lemma SoleFreed(r: Region, l: Layout, m: Layout, a: int)
    requires Settled(r, l) && Settled(r, m) && l.lists[Free] == [] && a in Held(l) && Held(m) == Held(l) - {a}
    ensures Sole(m, a, Held(l)[a].0)
  {
    var n := l.sizes[a];
    assert OthersStay(l, m, a) by {
      forall p | p in l.sizes && p != a ensures p in Held(l) { SoleOrHeld(l, a, p); }
    }
    BlockRange(r, l.sizes, a);
    var e := End(l.sizes, a);
    if a != r.lo {
      var p := Predecessor(r, l.sizes, a);
      BlockRange(r, l.sizes, p);
      assert End(m.sizes, p) == a;
    }
    forall c | c in m.sizes ensures c in Held(m) <==> c < a || e <= c {
      if c < a || e <= c {
        StaysHeld(r, l, m, a, c);
      } else if c in Held(l) {
        StartsApart(l.sizes, a, c);
      }
    }
    Gap(r, m, a, e);
  }

  // ---------- steps of a run

  lemma HeapIsSettled(heap: H.Heap)
    requires heap.Valid(Limbo) && NoLimbo(heap.l)
    ensures Settled(heap.reg, heap.l)
  {
  }

  /** Allocate for `w` from the only free block. */
  method TakeSole(heap: H.Heap, ghost w: Owner, size: int, first: int, small: int, ghost s: int, ghost n: int)
    returns (left: int, newFirst: int, newSmall: int)
    requires heap.Valid(Limbo) && NoLimbo(heap.l) && Sole(heap.l, s, n) && w.Used? && w in Chains(heap.l) && 0 < size
    requires first == At(Chains(heap.l)[w], 0) && SmallOk(heap.reg, heap.l, w, small) && heap.reg.extentSize > 0
    modifies heap
    ensures heap.Valid(Limbo) && NoLimbo(heap.l) && w in Chains(heap.l) && newFirst == At(Chains(heap.l)[w], 0)
    ensures Turn(heap.reg.extentSize, Turns(SizesOf(old(heap.l), w), size, small != 0), n)
            == Turns(SizesOf(heap.l, w), left, newSmall != 0)
    ensures left > 0 ==> SmallOk(heap.reg, heap.l, w, newSmall)
                         && Capacity(heap.l, w) == Capacity(old(heap.l), w) + size - left
    ensures left == 0 ==> Filled(heap.reg, heap.l, w, Capacity(old(heap.l), w) + size, newSmall)
    ensures var kept := FitSize(heap.reg.extentSize, n, size);
            |Chains(heap.l)[w]| == |Chains(old(heap.l))[w]| + 1 ==>
              && Chained(old(heap.l), heap.l, w, s, kept)
              && (if kept < n then Sole(heap.l, s + kept, n - kept) else Free in heap.l.lists && heap.l.lists[Free] == [])
  {
    hide H.Heap.Valid, Settled, Turn, SizesOf, SmallOk, Filled, Capacity, Chains, Chained, OthersKept, FreeRoom,
         Payloads,
         Total, At, NoLimbo;
    HeapIsSettled(heap);
    var got;
    ghost var popped;
    got, newFirst, newSmall, popped := heap.Alloc(size, first, small, w);
    left := size - got;
    HeapIsSettled(heap);
    assert popped == [n];
    OneTurn(heap.reg.extentSize, Turns(SizesOf(old(heap.l), w), size, small != 0), n);
    if |Chains(heap.l)[w]| == |Chains(old(heap.l))[w]| + 1 {
      FitAtMost(heap.reg, old(heap.l), s, size);
      SoleTaken(heap.reg, old(heap.l), heap.l, w, s, n, FitSize(heap.reg.extentSize, n, size));
    }
  }

  lemma OneTurn(e: int, t: Turns, n: int)
    requires 0 < e && 0 < t.left
    ensures AllTurns(e, t, [n]) == Turn(e, t, n)
  {
    hide Turn;
    TurnsNone(e, t);
    TurnsSnoc(e, t, [], n);
    assert [] + [n] == [n];
  }

  lemma FitAtMost(r: Region, l: Layout, s: int, want: int)
    requires Settled(r, l) && s in l.sizes && 0 < want
    ensures 0 < FitSize(r.extentSize, l.sizes[s], want) <= l.sizes[s]
    ensures Free in l.lists
  {
    BlockRange(r, l.sizes, s);
  }

  /** Free the only block of a value while everything is allocated. */
  method FreeOnly(heap: H.Heap, first: int, ghost w: Owner, ghost a: int)
    requires heap.Valid(Limbo) && NoLimbo(heap.l) && w.Used? && w in Chains(heap.l) && Chains(heap.l)[w] == [a]
    requires first == a + HEADER_SIZE && Free in heap.l.lists && heap.l.lists[Free] == []
    modifies heap
    ensures heap.Valid(Limbo) && NoLimbo(heap.l)
    ensures a in Held(old(heap.l)) && Sole(heap.l, a, Held(old(heap.l))[a].0)
    ensures Chains(heap.l) == Chains(old(heap.l)) - {w} && Held(heap.l) == Held(old(heap.l)) - {a}
    ensures OthersKept(old(heap.l), heap.l, w)
  {
    hide H.Heap.Valid, Settled, OthersKept, Payloads, Total, NoLimbo;
    HeapIsSettled(heap);
    OnlyBlock(heap.reg, heap.l, w, a);
    heap.FreeChain(first, w);
    HeapIsSettled(heap);
    OnlyFreed(heap.reg, old(heap.l), heap.l, w, a);
    SoleFreed(heap.reg, old(heap.l), heap.l, a);
  }

  lemma OnlyBlock(r: Region, l: Layout, w: Owner, a: int)
    requires Settled(r, l) && w.Used? && w in Chains(l) && Chains(l)[w] == [a]
    ensures a in Held(l) && Held(l)[a].1 == w && (forall c | c in Held(l) && Held(l)[c].1 == w :: c == a)
    ensures At([a], 0) == a + HEADER_SIZE
  {
    ChainIsHeld(l, w);
    assert Chains(l)[w][0] == a;
  }

  lemma OnlyFreed(r: Region, l: Layout, m: Layout, w: Owner, a: int)
    requires Settled(r, l) && Settled(r, m) && OthersKept(l, m, w) && Chains(m) == Chains(l) - {w}
    requires a in Held(l) && Held(l)[a].1 == w && (forall c | c in Held(l) && Held(l)[c].1 == w :: c == a)
    ensures Held(m) == Held(l) - {a}
  {
    hide Tiled, Aligned, Coalesced;
    forall c | c in Held(m) ensures Held(m)[c].1 != w {
      assert Held(m)[c].1 in Chains(m);
    }
    hide Held, Chains, OthersKept;
    forall c ensures c in Held(m) <==> c in Held(l) && c != a
             ensures c in Held(m) ==> c in Held(l) && Held(m)[c] == Held(l)[c]
    {
      HeldBoth(l, m, w, c);
    }
  }

  /** A new value from the only free block, in one piece. */
  method NewValue(heap: H.Heap, ghost w: Owner, size: int, ghost s: int, ghost n: int) returns (first: int)
    requires heap.Valid(Limbo) && NoLimbo(heap.l) && Sole(heap.l, s, n) && w.Used? && w !in Chains(heap.l)
    requires 0 < size && size + HFER_SIZE <= n && heap.reg.extentSize >= 256
    modifies heap
    ensures heap.Valid(Limbo) && NoLimbo(heap.l) && first == s + HEADER_SIZE
    ensures var kept := FitSize(heap.reg.extentSize, n, size);
            && Chains(heap.l) == Chains(old(heap.l))[w := [s]] && Held(heap.l) == Held(old(heap.l))[s := (kept, w)]
            && (if kept < n then Sole(heap.l, s + kept, n - kept) else Free in heap.l.lists && heap.l.lists[Free] == [])
  {
    hide H.Heap.Valid, Settled, SmallOk, Filled, Capacity, OthersKept, FreeRoom, NoLimbo, FitSize;
    heap.OpenChain(w);
    heap.Basics(Limbo);
    OpenSole(heap.reg, old(heap.l), heap.l, w, s, n);
    var left, small;
    left, first, small := TakeSole(heap, w, size, 0, 0, s, n);
    NewTurn(heap.reg.extentSize, size, n);
    assert |SizesOf(heap.l, w)| == 1 && [s] + [] == [s];
  }

  lemma OpenSole(r: Region, l: Layout, m: Layout, w: Owner, s: int, n: int)
    requires Sole(l, s, n) && w.Used? && Chains(m) == Chains(l)[w := []] && m.sizes == l.sizes && r.extentSize > 0
    requires Free in m.lists && m.lists[Free] == l.lists[Free]
    ensures Sole(m, s, n) && SizesOf(m, w) == [] && SmallOk(r, m, w, 0) && At(Chains(m)[w], 0) == 0
  {
  }

  /** The first turn of a value keeps what it chains. */
  lemma NewTurn(e: int, size: int, n: int)
    requires 256 <= e && 0 < size && size + HFER_SIZE <= n
    ensures |Turn(e, Turns([], size, false), n).chain| == 1
  {
  }

  lemma FitIs(e: int, size: int, want: int, alloc: int)
    requires 0 < e && 0 < want && alloc % e == 0 && alloc - e < want + HFER_SIZE <= alloc
    ensures FitSize(e, size, want) == if size >= alloc + e then alloc else size
  {
    RoundUpIs(want + HFER_SIZE, e, alloc);
  }

  /** The chain of `w` has these block sizes and still lacks `left` of `need` bytes. */
  ghost predicate Building(r: Region, l: Layout, w: Owner, sizes: seq<int>, need: int, left: int, first: int,
                           small: int) {
    && w.Used? && w in Chains(l) && first == At(Chains(l)[w], 0) && SmallOk(r, l, w, small)
    && SizesOf(l, w) == sizes && Capacity(l, w) == need - left && 0 < left
  }

  lemma BuildingStays(r: Region, l: Layout, m: Layout, v: Owner, w: Owner, sizes: seq<int>, need: int, left: int,
                      first: int,
                      small: int)
    requires Building(r, l, w, sizes, need, left, first, small) && Settled(r, l) && OthersKept(l, m, v) && v != w
    ensures Building(r, m, w, sizes, need, left, first, small)
  {
    ChainSteady(r, l, m, v, w, small);
    ChainIsHeld(l, w);
    assert Chains(m)[w] == Chains(l)[w] by { assert w in Chains(l) - {v}; }
    var s := Chains(l)[w];
    forall i | 0 <= i < |s| ensures SizeOf(m, s[i]) == SizeOf(l, s[i]) {
      OtherHeld(l, m, v, s[i]);
    }
    assert SizesOf(m, w) == SizesOf(l, w);
  }

  /** With everything allocated, free the value `v` of one block `a` and go on allocating for `w`:
      an eviction in the middle of a put. */
  method Refill(heap: H.Heap, victim: int, ghost v: Owner, ghost a: int, ghost w: Owner, ghost sizes: seq<int>,
                ghost need: int, left: int, first: int, small: int)
    returns (newLeft: int, newFirst: int, newSmall: int)
    requires heap.Valid(Limbo) && NoLimbo(heap.l) && Free in heap.l.lists && heap.l.lists[Free] == []
    requires v.Used? && v != w && v in Chains(heap.l) && Chains(heap.l)[v] == [a] && victim == a + HEADER_SIZE
    requires a in Held(heap.l) && heap.reg.extentSize > 0
    requires Building(heap.reg, heap.l, w, sizes, need, left, first, small)
    modifies heap
    ensures heap.Valid(Limbo) && NoLimbo(heap.l)
    ensures Turn(heap.reg.extentSize, Turns(sizes, left, small != 0), Held(old(heap.l))[a].0)
            == Turns(SizesOf(heap.l, w), newLeft, newSmall != 0)
    ensures w in Chains(heap.l) && newFirst == At(Chains(heap.l)[w], 0)
    ensures newLeft > 0 ==> Building(heap.reg, heap.l, w, SizesOf(heap.l, w), need, newLeft, newFirst, newSmall)
    ensures newLeft == 0 ==> Filled(heap.reg, heap.l, w, need, newSmall)
    ensures var n := Held(old(heap.l))[a].0;
            |SizesOf(heap.l, w)| == |sizes| + 1 && FitSize(heap.reg.extentSize, n, left) == n ==>
              && Free in heap.l.lists && heap.l.lists[Free] == []
              && Held(heap.l) == Held(old(heap.l))[a := (n, w)]
              && Chains(heap.l) == (Chains(old(heap.l)) - {v})[w := [a] + Chains(old(heap.l))[w]]
  {
    hide H.Heap.Valid, Settled, OthersKept, NoLimbo, Turn, SmallOk, Filled, Capacity, FitSize, At;
    ghost var l0 := heap.l;
    HeapIsSettled(heap);
    FreeOnly(heap, victim, v, a);
    ghost var n := Held(l0)[a].0;
    BuildingStays(heap.reg, l0, heap.l, v, w, sizes, need, left, first, small);
    newLeft, newFirst, newSmall := TakeSole(heap, w, left, first, small, a, n);
    assert Chains(l0)[w] == (Chains(l0) - {v})[w];
  }

  // ---------- the runs

  /** A new heap: one free block. */
  ghost predicate Untouched(heap: H.Heap)
    reads heap
  {
    && heap.Valid(Limbo) && NoLimbo(heap.l) && Chains(heap.l) == map[] && Held(heap.l) == map[]
    && Sole(heap.l, heap.reg.lo, heap.reg.hi - heap.reg.lo)
  }

  /** Start the value `w` in a heap with one free block that is too small for it. */
  method BeginValue(heap: H.Heap, ghost w: Owner, need: int, ghost s: int, ghost n: int)
    returns (left: int, first: int, small: int)
    requires heap.Valid(Limbo) && NoLimbo(heap.l) && Sole(heap.l, s, n) && w.Used? && w !in Chains(heap.l)
    requires heap.reg.extentSize >= 256 && HFER_SIZE < n < need + HFER_SIZE && n < 2 * heap.reg.extentSize
    modifies heap
    ensures heap.Valid(Limbo) && NoLimbo(heap.l) && Free in heap.l.lists && heap.l.lists[Free] == []
    ensures left == need - (n - HFER_SIZE) && Building(heap.reg, heap.l, w, [n], need, left, first, small)
    ensures (small != 0) == (n == heap.reg.extentSize)
    ensures Chains(heap.l) == Chains(old(heap.l))[w := [s]] && Held(heap.l) == Held(old(heap.l))[s := (n, w)]
  {
    hide H.Heap.Valid, Settled, SmallOk, Filled, OthersKept, FreeRoom, NoLimbo;
    heap.OpenChain(w);
    heap.Basics(Limbo);
    OpenSole(heap.reg, old(heap.l), heap.l, w, s, n);
    left, first, small := TakeSole(heap, w, need, 0, 0, s, n);
    assert |SizesOf(heap.l, w)| == 1 && [s] + [] == [s];
  }

  /** A remainder below the tag size: the block at the end goes to a value that then gets two extents more. */
  method TailRun(heap: H.Heap) returns (need: int, first: int, ghost small: int)
    requires Untouched(heap) && heap.reg.Valid() && 0 < Remainder(heap.reg) < HFER_SIZE
    requires 3 * heap.reg.extentSize + Remainder(heap.reg) <= heap.reg.hi - heap.reg.lo
    modifies heap
    ensures heap.Valid(Limbo) && NoLimbo(heap.l) && 0 < need
    ensures Filled(heap.reg, heap.l, Used(3), need, small) && Superfluous(heap.l, Used(3), need)
    ensures Used(3) in Chains(heap.l) && first == At(Chains(heap.l)[Used(3)], 0)
  {
    hide H.Heap.Valid, NoLimbo, FitSize, Filled, Building, Superfluous, Chains, Held, SizesOf, Turn;
    var e, lo, span := heap.reg.extentSize, heap.reg.lo, heap.reg.hi - heap.reg.lo;
    var rest := span % e;
    var between := span - rest - 3 * e;
    TailSizes(e, span, rest, between);
    var victim := NewValue(heap, Used(1), e - 31, lo, span);
    if between > 0 {
      var _ := NewValue(heap, Used(2), between - HFER_SIZE, lo + 2 * e, span - 2 * e);
    }
    need := 2 * e + rest - 63;
    var left, s;
    left, first, s := BeginValue(heap, Used(3), need, lo + 2 * e + between, e + rest);
    left, first, s := Refill(heap, victim, Used(1), lo, Used(3), [e + rest], need, left, first, s);
    small := s;
    TailTurn(e, rest);
    TwoPieces(heap.reg, heap.l, Used(3), 2 * e, e + rest, need);
  }

  lemma TailSizes(e: int, span: int, rest: int, between: int)
    requires 256 <= e && rest == span % e && 0 < rest < HFER_SIZE && between == span - rest - 3 * e && 0 <= between
    ensures between % e == 0 && FitSize(e, span, e - 31) == 2 * e
    ensures between > 0 ==> e <= between && FitSize(e, span - 2 * e, between - HFER_SIZE) == between
  {
    Between(e, span, rest, between, 3);
    Residue(2 * e, 2, 0, e);
    FitIs(e, span, e - 31, 2 * e);
    if between > 0 {
      FitIs(e, span - 2 * e, between - HFER_SIZE, between);
    }
  }

  lemma Between(e: int, span: int, rest: int, between: int, k: int)
    requires 256 <= e && rest == span % e && between == span - rest - k * e && 0 <= between
    ensures between % e == 0 && (between > 0 ==> e <= between)
  {
    var q := span / e - k;
    assert between == q * e by { assert span == span / e * e + rest; }
    Residue(between, q, 0, e);
    assert q > 0 ==> q * e >= e by { if q > 0 { MulLe(1, q, e); } }
    assert q <= 0 ==> q * e <= 0 by { if q <= 0 { MulLe(q, 0, e); } }
  }

  lemma TailTurn(e: int, rest: int)
    requires 256 <= e && 0 < rest < HFER_SIZE
    ensures Turn(e, Turns([e + rest], e - 31, false), 2 * e) == Turns([2 * e, e + rest], 0, false)
  {
    Residue(2 * e, 2, 0, e);
    FitIs(e, 2 * e, e - 31, 2 * e);
    hide FitSize;
  }

  /** Two blocks, of which the first holds all that is needed. */
  lemma TwoPieces(r: Region, l: Layout, w: Owner, x: int, y: int, need: int)
    requires SizesOf(l, w) == [x, y] && need <= x - HFER_SIZE && 0 < x
    ensures Superfluous(l, w, need)
  {
    var s := Chains(l)[w];
    assert SizesOf(l, w)[0] == SizeOf(l, s[0]) == x;
    assert s[..1] == [s[0]];
  }

  /** Everything is allocated: two values of one extent each, one that ends the region, and nothing of `Used(5)`. */
  ghost predicate Ready(l: Layout, a: int, b: int, c: int, e: int, tail: int) {
    && Free in l.lists && l.lists[Free] == [] && Used(5) !in Chains(l) && a != b && a != c && b != c
    && OneBlock(l, Used(1), a, e) && OneBlock(l, Used(2), b, e) && OneBlock(l, Used(4), c, tail)
  }

  ghost predicate OneBlock(l: Layout, w: Owner, a: int, n: int) {
    w in Chains(l) && Chains(l)[w] == [a] && a in Held(l) && Held(l)[a] == (n, w)
  }

  method Prepare(heap: H.Heap, j: int) returns (one: int, two: int, three: int)
    requires Untouched(heap) && heap.reg.Valid() && 1 <= j <= 2
    requires heap.reg.extentSize < Remainder(heap.reg) + j * HFER_SIZE
    requires (j + 2) * heap.reg.extentSize + Remainder(heap.reg) <= heap.reg.hi - heap.reg.lo
    modifies heap
    ensures heap.Valid(Limbo) && NoLimbo(heap.l)
    ensures Ready(heap.l, one - HEADER_SIZE, two - HEADER_SIZE, three - HEADER_SIZE, heap.reg.extentSize,
                  j * heap.reg.extentSize + Remainder(heap.reg))
  {
    hide H.Heap.Valid, NoLimbo, FitSize, Chains, Held;
    var e, lo, span := heap.reg.extentSize, heap.reg.lo, heap.reg.hi - heap.reg.lo;
    var rest := span % e;
    var between, tail, last := span - rest - (j + 2) * e, j * e + rest, (j - 1) * (e - HFER_SIZE) + 1;
    SingleSizes(e, span, rest, between, tail, j);
    one := NewValue(heap, Used(1), 1, lo, span);
    two := NewValue(heap, Used(2), 1, lo + e, span - e);
    if between > 0 {
      var _ := NewValue(heap, Used(3), between - HFER_SIZE, lo + 2 * e, span - 2 * e);
    }
    three := NewValue(heap, Used(4), last, lo + 2 * e + between, tail);
  }

  /** A remainder near to the extent size: a value made of two extents gets the block at the end and gives one extent back,
      which is one too few. */
  method SinglesRun(heap: H.Heap, j: int) returns (need: int, first: int, ghost small: int)
    requires Untouched(heap) && heap.reg.Valid() && 1 <= j <= 2
    requires heap.reg.extentSize < Remainder(heap.reg) + j * HFER_SIZE
    requires (j + 2) * heap.reg.extentSize + Remainder(heap.reg) <= heap.reg.hi - heap.reg.lo
    modifies heap
    ensures heap.Valid(Limbo) && NoLimbo(heap.l) && 0 < need
    ensures Filled(heap.reg, heap.l, Used(5), need, small) && Superfluous(heap.l, Used(5), need)
    ensures Used(5) in Chains(heap.l) && first == At(Chains(heap.l)[Used(5)], 0)
  {
    hide H.Heap.Valid, NoLimbo, FitSize, Filled, Building, Superfluous, Chains, Held, SizesOf, Turn, Untouched;
    var e := heap.reg.extentSize;
    var rest := (heap.reg.hi - heap.reg.lo) % e;
    var one, two, three := Prepare(heap, j);
    ghost var tail := j * e + rest;
    var last := (j - 1) * (e - HFER_SIZE) + 1;
    SingleTurns(e, rest, tail, j);
    need, first, small := Consume(heap, e, tail, last, one, two, three);
    TwoPieces(heap.reg, heap.l, Used(5), tail, e, need);
  }

  method Consume(heap: H.Heap, e: int, ghost tail: int, last: int, one: int, two: int, three: int)
    returns (need: int, first: int, ghost small: int)
    requires heap.Valid(Limbo) && NoLimbo(heap.l) && e == heap.reg.extentSize && 256 <= e && 0 < last
    requires Ready(heap.l, one - HEADER_SIZE, two - HEADER_SIZE, three - HEADER_SIZE, e, tail)
    requires Turn(e, Turns([], 2 * (e - HFER_SIZE) + last, false), e) == Turns([e], e - HFER_SIZE + last, true)
    requires FitSize(e, e, 2 * (e - HFER_SIZE) + last) == e && FitSize(e, e, e - HFER_SIZE + last) == e
    requires Turn(e, Turns([e], e - HFER_SIZE + last, true), e) == Turns([e, e], last, true)
    requires Turn(e, Turns([e, e], last, true), tail) == Turns([tail, e], 0, true)
    modifies heap
    ensures heap.Valid(Limbo) && NoLimbo(heap.l) && need == 2 * (e - HFER_SIZE) + last
    ensures Filled(heap.reg, heap.l, Used(5), need, small) && SizesOf(heap.l, Used(5)) == [tail, e]
    ensures Used(5) in Chains(heap.l) && first == At(Chains(heap.l)[Used(5)], 0)
  {
    hide H.Heap.Valid, NoLimbo, FitSize, Filled, Building, Chains, Held, SizesOf, Turn;
    need := 2 * (e - HFER_SIZE) + last;
    heap.OpenChain(Used(5));
    heap.Basics(Limbo);
    Nothing(heap.reg, heap.l, Used(5), need);
    var left, s;
    left, first, s := Refill(heap, one, Used(1), one - HEADER_SIZE, Used(5), [], need, need, 0, 0);
    left, first, s := Refill(heap, two, Used(2), two - HEADER_SIZE, Used(5), [e], need, left, first, s);
    left, first, s := Refill(heap, three, Used(4), three - HEADER_SIZE, Used(5), [e, e], need, left, first, s);
    small := s;
  }

  lemma Nothing(r: Region, l: Layout, w: Owner, need: int)
    requires w.Used? && w in Chains(l) && Chains(l)[w] == [] && 0 < need
    ensures Building(r, l, w, [], need, need, 0, 0)
  {
  }

  lemma SingleSizes(e: int, span: int, rest: int, between: int, tail: int, j: int)
    requires 256 <= e && 1 <= j <= 2 && rest == span % e && e < rest + j * HFER_SIZE
    requires between == span - rest - (j + 2) * e && 0 <= between && tail == j * e + rest
    ensures FitSize(e, span, 1) == e && FitSize(e, span - e, 1) == e
    ensures between > 0 ==> e <= between && FitSize(e, span - 2 * e, between - HFER_SIZE) == between
    ensures FitSize(e, tail, (j - 1) * (e - HFER_SIZE) + 1) == tail
  {
    Between(e, span, rest, between, j + 2);
    Residue(e, 1, 0, e);
    Residue(2 * e, 2, 0, e);
    FitIs(e, span, 1, e);
    FitIs(e, span - e, 1, e);
    if between > 0 {
      FitIs(e, span - 2 * e, between - HFER_SIZE, between);
    }
    if j == 1 {
      FitIs(e, tail, 1, e);
    } else {
      FitIs(e, tail, e - 31, 2 * e);
    }
  }

  lemma SingleTurns(e: int, rest: int, tail: int, j: int)
    requires 256 <= e && 1 <= j <= 2 && 0 <= rest < e && e < rest + j * HFER_SIZE && tail == j * e + rest
    ensures var last := (j - 1) * (e - HFER_SIZE) + 1;
            && Turn(e, Turns([], 2 * (e - HFER_SIZE) + last, false), e) == Turns([e], e - HFER_SIZE + last, true)
            && FitSize(e, e, 2 * (e - HFER_SIZE) + last) == e
            && Turn(e, Turns([e], e - HFER_SIZE + last, true), e) == Turns([e, e], last, true)
            && FitSize(e, e, e - HFER_SIZE + last) == e
            && Turn(e, Turns([e, e], last, true), tail) == Turns([tail, e], 0, true)
  {
    var last := (j - 1) * (e - HFER_SIZE) + 1;
    ShortFit(e, 2 * (e - HFER_SIZE) + last);
    ShortFit(e, e - HFER_SIZE + last);
    Residue(e, 1, 0, e);
    Residue(2 * e, 2, 0, e);
    FitIs(e, tail, last, j * e);
    hide FitSize;
    DropsAt(e, [tail, e, e], 2);
    assert [tail, e, e][..2] + [tail, e, e][3..] == [tail, e];
  }

  /** A block of one extent is never cut. */
  lemma ShortFit(e: int, want: int)
    requires 0 < e && 0 < want
    ensures FitSize(e, e, want) == e
  {
  }

  // ---------- the decision

  /** The assertion that a value reaches every extent of its chain can fail in a region if and only if the region is a
      wasteful one: a wasteful region has a run from a new heap at whose end copying a value in trips the assertion,
      and in any other region no heap can hold a finished chain that does. */
  method WasteDecided(addr: int, size: nat, extentSize: int, guardFooter: int, guardHeader: Header)
    returns (heap: H.Heap, reached: bool)
    requires 0 < addr && H.MIN_POOL <= size && addr + size < FLAG_ALLOCATED
    requires H.MIN_EXTENT <= extentSize < FLAG_ALLOCATED
    requires 0 <= guardFooter < 2 * FLAG_ALLOCATED && 0 <= guardHeader.sizeFlags < 2 * FLAG_ALLOCATED
    ensures fresh(heap) && heap.Valid(Limbo) && NoLimbo(heap.l) && heap.reg.extentSize == extentSize
    ensures reached <==> !Wasteful(heap.reg)
    ensures !reached ==>
              exists w: Owner, need: int, small: int {:trigger Filled(heap.reg, heap.l, w, need, small)} ::
                w.Used? && 0 < need && Filled(heap.reg, heap.l, w, need, small) && Superfluous(heap.l, w, need)
    ensures reached ==>
              forall m: Layout, v: Owner, n: int, k: int {:trigger Filled(heap.reg, m, v, n, k)} |
                Settled(heap.reg, m) && v.Used? && 0 < n && Filled(heap.reg, m, v, n, k) :: !Superfluous(m, v, n)
  {
    hide H.Heap.Valid, NoLimbo, Filled, Superfluous, Settled, Remainder, Chains, Held;
    heap := new H.Heap(addr, size, extentSize, guardFooter, guardHeader);
    NewIsUntouched(heap);
    if Wasteful(heap.reg) {
      var rest := (heap.reg.hi - heap.reg.lo) % heap.reg.extentSize;
      RestIs(heap.reg);
      if rest < HFER_SIZE {
        var need, first;
        ghost var small;
        need, first, small := TailRun(heap);
        reached := CopyValue(heap, addr, size, first, need, Used(3), small);
      } else {
        var need, first;
        ghost var small;
        need, first, small := SinglesRun(heap, if extentSize < rest + HFER_SIZE then 1 else 2);
        reached := CopyValue(heap, addr, size, first, need, Used(5), small);
      }
    } else {
      reached := true;
      forall m: Layout, v: Owner, n: int, k: int
        | Settled(heap.reg, m) && v.Used? && 0 < n && Filled(heap.reg, m, v, n, k)
        ensures !Superfluous(m, v, n)
      {
        NotSuperfluous(heap.reg, m, v, n, k);
      }
    }
  }

  /** Copy some value of `need` bytes into its chain, watching the assertion. */
  method CopyValue(heap: H.Heap, addr: int, size: nat, first: int, need: int, ghost w: Owner, ghost small: int)
    returns (reached: bool)
    requires heap.Valid(Limbo) && NoLimbo(heap.l) && 0 < need && addr <= heap.reg.lo && heap.reg.hi <= addr + size
    requires w.Used? && w in Chains(heap.l) && first == At(Chains(heap.l)[w], 0) && heap.reg.extentSize > 0
    requires Filled(heap.reg, heap.l, w, need, small) && Superfluous(heap.l, w, need)
    ensures !reached
  {
    hide H.Heap.Valid, NoLimbo, Filled, Superfluous, Settled, At, Stored, OnlyIn, SameTags, AllInside, AllApart;
    var pool := new byte[size](_ => 0);
    var value: seq<byte> := seq(need, _ => 0);
    HeapIsSettled(heap);
    SettledFacts(heap.reg, heap.l);
    CacheLinks.ChainExtents(heap.reg, heap.l, w, addr, size);
    TooMuchRoom(heap.reg, heap.l, w, need, small);
    reached := PopulateExtents(heap, pool, addr, first, value, w);
  }

  lemma TooMuchRoom(r: Region, l: Layout, w: Owner, need: int, small: int)
    requires r.extentSize > 0 && Owned(l) && w.Used? && w in Chains(l) && Filled(r, l, w, need, small)
    requires Superfluous(l, w, need) && Values.Room(Exts(l, w)) == Capacity(l, w)
    ensures Exts(l, w) != [] && need <= Values.Room(Exts(l, w)[..|Exts(l, w)| - 1]) && need <= Values.Room(Exts(l, w))
  {
    ChainIsHeld(l, w);
    var n := |Chains(l)[w]| - 1;
    CapIsRoom(Payloads(l), Chains(l)[w][..n], Exts(l, w)[..n]);
  }

  lemma RestIs(r: Region)
    requires r.Valid()
    ensures Remainder(r) == (r.hi - r.lo) % r.extentSize
  {
  }

  lemma NewIsUntouched(heap: H.Heap)
    requires heap.Valid(Limbo) && NoLimbo(heap.l) && Chains(heap.l) == map[] && Held(heap.l) == map[]
    ensures Untouched(heap) && heap.reg.Valid()
  {
    hide Tiled, Aligned, Coalesced, Tagged, Guarded, AllLinked;
    forall a | a in heap.l.owners ensures heap.l.owners[a] == Free { FreeUnlessHeld(heap.l, a); }
    EmptyHeap(heap.reg, heap.hdr, heap.ftr, heap.first, heap.l);
  }

  lemma NotSuperfluous(r: Region, m: Layout, v: Owner, n: int, k: int)
    requires Settled(r, m) && v.Used? && 0 < n && Filled(r, m, v, n, k) && !Wasteful(r)
    ensures !Superfluous(m, v, n)
  {
    LastExtentNeeded(r, m, v, n, k);
  }
}
