/** Values scattered over the extents of a chain, and gathered from them. */
module Values {
  import opened Bytes
  import opened HeapLayout
  import opened HeapInvariant
  import opened HeapTags
  import H = Heap

  /** The extent lies inside a pool of `n` bytes mapped at `base`. */
  ghost predicate Inside(x: Extent, base: int, n: int) {
    base <= x.ptr && 0 <= x.size && x.ptr + x.size <= base + n
  }

  ghost predicate AllInside(e: seq<Extent>, base: int, n: int) {
    forall i | 0 <= i < |e| :: Inside(e[i], base, n)
  }

  ghost predicate AllApart(e: seq<Extent>) {
    forall i, j | 0 <= i < |e| && 0 <= j < |e| && i != j :: Apart(e[i], e[j])
  }

  ghost function Slice(pool: seq<byte>, base: int, x: Extent): seq<byte>
    requires Inside(x, base, |pool|)
  {
    pool[x.ptr - base..x.ptr - base + x.size]
  }

  /** The payload bytes of the extents, one after the other. */
  ghost function Gather(pool: seq<byte>, base: int, e: seq<Extent>): seq<byte>
    requires AllInside(e, base, |pool|)
  {
    if e == [] then [] else Gather(pool, base, e[..|e| - 1]) + Slice(pool, base, e[|e| - 1])
  }

  /** The bytes of a value of `vsize` bytes stored in the extents. */
  ghost function Stored(pool: seq<byte>, base: int, e: seq<Extent>, vsize: int): seq<byte>
    requires AllInside(e, base, |pool|)
  {
    if 0 <= vsize <= |Gather(pool, base, e)| then Gather(pool, base, e)[..vsize] else []
  }

  lemma GatherStep(pool: seq<byte>, base: int, e: seq<Extent>, i: int)
    requires AllInside(e, base, |pool|) && 0 <= i < |e|
    ensures AllInside(e[..i], base, |pool|) && AllInside(e[..i + 1], base, |pool|)
    ensures Gather(pool, base, e[..i + 1]) == Gather(pool, base, e[..i]) + Slice(pool, base, e[i])
  {
    assert e[..i + 1][..i] == e[..i] && e[..i + 1][i] == e[i];
  }

  /** Bytes outside the extents do not matter. */
  lemma {:induction false} GatherFrame(pool: seq<byte>, pool': seq<byte>, base: int, e: seq<Extent>)
    requires |pool| == |pool'| && AllInside(e, base, |pool|)
    requires forall i | 0 <= i < |e| :: Slice(pool, base, e[i]) == Slice(pool', base, e[i])
    ensures Gather(pool, base, e) == Gather(pool', base, e)
  {
    if e != [] {
      var d := e[..|e| - 1];
      assert forall i | 0 <= i < |d| :: d[i] == e[i];
      GatherFrame(pool, pool', base, d);
      assert Slice(pool, base, e[|e| - 1]) == Slice(pool', base, e[|e| - 1]);
    }
  }

  /** How many bytes the extents can hold. */
  ghost function Room(e: seq<Extent>): int {
    if e == [] then 0 else Room(e[..|e| - 1]) + e[|e| - 1].size
  }

  lemma {:induction false} GatherRoom(pool: seq<byte>, base: int, e: seq<Extent>)
    requires AllInside(e, base, |pool|)
    ensures |Gather(pool, base, e)| == Room(e)
  {
    if e != [] {
      GatherRoom(pool, base, e[..|e| - 1]);
    }
  }

  lemma {:induction false} GatherPrefix(pool: seq<byte>, base: int, e: seq<Extent>, i: int)
    requires AllInside(e, base, |pool|) && 0 <= i <= |e|
    ensures AllInside(e[..i], base, |pool|) && Gather(pool, base, e[..i]) <= Gather(pool, base, e)
    decreases |e|
  {
    if i == |e| {
      assert e[..i] == e;
    } else {
      var d := e[..|e| - 1];
      GatherPrefix(pool, base, d, i);
      assert d[..i] == e[..i];
    }
  }

  /** The capacity of a chain is the room of its extents. */
  lemma {:induction false} CapIsRoom(p: map<int, int>, s: seq<int>, e: seq<Extent>)
    requires |s| == |e| && forall i | 0 <= i < |s| :: s[i] in p && e[i].size == p[s[i]]
    ensures Cap(p, s) == Room(e)
  {
    if s != [] {
      var n := |s| - 1;
      CapRemoveAt(p, s, n);
      assert RemoveAt(s, n) == s[..n];
      CapIsRoom(p, s[..n], e[..n]);
    }
  }

  /** NULL marks exactly the end of a chain. */
  lemma ChainEnd(heap: H.Heap, w: Owner, i: int)
    requires heap.Valid(Limbo) && w.Used? && w in Chains(heap.l) && 0 <= i <= |Chains(heap.l)[w]|
    ensures At(Chains(heap.l)[w], i) == 0 <==> i == |Chains(heap.l)[w]|
  {
    PointersNotNull(heap.reg, heap.l, w);
    AllPositive(heap.reg, heap.l, w);
  }

  // ---------- scattering

  /** `value[..pos]` has been written to the first extents `e`. */
  ghost predicate Written(pool: seq<byte>, base: int, e: seq<Extent>, value: seq<byte>, pos: int)
    requires AllInside(e, base, |pool|)
  {
    var g := Gather(pool, base, e);
    0 <= pos <= |value| && pos <= |g| && (pos < |g| ==> pos == |value|) && g[..pos] == value[..pos]
  }

  /** The pool after `len` bytes of the value have been copied to the start of extent `x`. */
  ghost predicate Copied(pool: seq<byte>, pool': seq<byte>, base: int, x: Extent, data: seq<byte>) {
    && |pool| == |pool'| && Inside(x, base, |pool|) && |data| <= x.size
    && (forall k | 0 <= k < |pool| ::
          pool'[k] == if x.ptr - base <= k < x.ptr - base + |data| then data[k - (x.ptr - base)] else pool[k])
  }

  lemma CopiedApart(pool: seq<byte>, pool': seq<byte>, base: int, x: Extent, data: seq<byte>, y: Extent)
    requires Copied(pool, pool', base, x, data) && Inside(y, base, |pool|) && Apart(x, y)
    ensures Slice(pool', base, y) == Slice(pool, base, y)
  {
  }

  lemma ScatterStep(pool: seq<byte>, pool': seq<byte>, base: int, e: seq<Extent>, i: int, value: seq<byte>, pos: int,
                    len: int)
    requires |pool| == |pool'| && AllInside(e, base, |pool|) && AllApart(e) && 0 <= i < |e| && 0 <= pos <= |value|
    requires AllInside(e[..i], base, |pool|) && Written(pool, base, e[..i], value, pos)
    requires len == if e[i].size < |value| - pos then e[i].size else |value| - pos
    requires Copied(pool, pool', base, e[i], value[pos..pos + len])
    ensures AllInside(e[..i + 1], base, |pool'|) && Written(pool', base, e[..i + 1], value, pos + len)
  {
    hide Gather, Copied, Slice, Written;
    assert Inside(e[i], base, |pool|);
    GatherStep(pool', base, e, i);
    CopiedHere(pool, pool', base, e[i], value[pos..pos + len]);
    forall j | 0 <= j < i ensures Slice(pool, base, e[..i][j]) == Slice(pool', base, e[..i][j]) {
      CopiedApart(pool, pool', base, e[i], value[pos..pos + len], e[j]);
    }
    GatherFrame(pool, pool', base, e[..i]);
    WrittenMore(pool, pool', base, e, i, value, pos, len);
  }

  lemma CopiedHere(pool: seq<byte>, pool': seq<byte>, base: int, x: Extent, data: seq<byte>)
    requires Copied(pool, pool', base, x, data)
    ensures |pool'| == |pool| && |Slice(pool', base, x)| == x.size && Slice(pool', base, x)[..|data|] == data
  {
  }

  lemma WrittenMore(pool: seq<byte>, pool': seq<byte>, base: int, e: seq<Extent>, i: int, value: seq<byte>, pos: int,
                    len: int)
    requires |pool| == |pool'| && AllInside(e, base, |pool|) && 0 <= i < |e|
    requires AllInside(e[..i], base, |pool|) && AllInside(e[..i + 1], base, |pool|)
    requires Written(pool, base, e[..i], value, pos)
    requires Gather(pool', base, e[..i + 1]) == Gather(pool, base, e[..i]) + Slice(pool', base, e[i])
    requires len == if e[i].size < |value| - pos then e[i].size else |value| - pos
    requires |Slice(pool', base, e[i])| == e[i].size && 0 <= len <= e[i].size
    requires Slice(pool', base, e[i])[..len] == value[pos..pos + len]
    ensures Written(pool', base, e[..i + 1], value, pos + len)
  {
    hide Gather, Slice;
    var g, t := Gather(pool, base, e[..i]), Slice(pool', base, e[i]);
    if pos == |g| {
      assert (g + t)[..pos + len] == g + t[..len];
      assert value[..pos + len] == value[..pos] + value[pos..pos + len];
    } else {
      assert (g + t)[..pos] == g[..pos];
    }
  }

  lemma ScatterStart(pool: seq<byte>, base: int, e: seq<Extent>, value: seq<byte>)
    requires AllInside(e, base, |pool|)
    ensures AllInside(e[..0], base, |pool|) && Written(pool, base, e[..0], value, 0) && OnlyIn(pool, pool, base, e)
  {
  }

  lemma StillLeft(pool: seq<byte>, base: int, e: seq<Extent>, i: int, value: seq<byte>, pos: int)
    requires AllInside(e, base, |pool|) && 0 <= i < |e|
    requires AllInside(e[..i], base, |pool|) && Written(pool, base, e[..i], value, pos)
    ensures pos < |value| <==> Room(e[..i]) < |value|
    ensures 0 < i ==> Room(e[..i - 1]) <= Room(e[..i])
  {
    GatherRoom(pool, base, e[..i]);
    if 0 < i {
      RoomStep(e, i - 1);
    }
  }

  lemma ScatterEnd(pool: seq<byte>, base: int, e: seq<Extent>, value: seq<byte>, pos: int)
    requires AllInside(e, base, |pool|) && |value| <= Room(e)
    requires AllInside(e[..|e|], base, |pool|) && Written(pool, base, e[..|e|], value, pos)
    ensures Stored(pool, base, e, |value|) == value
  {
    assert e[..|e|] == e;
    GatherRoom(pool, base, e);
    assert pos == |value| && value[..pos] == value;
  }

  lemma OnlyInStep(pool: seq<byte>, mid: seq<byte>, pool': seq<byte>, base: int, e: seq<Extent>, i: int,
                   data: seq<byte>)
    requires OnlyIn(pool, mid, base, e) && 0 <= i < |e| && Copied(mid, pool', base, e[i], data)
    ensures OnlyIn(pool, pool', base, e)
  {
    forall y | Inside(y, base, |pool|) && (forall j | 0 <= j < |e| :: Apart(e[j], y))
      ensures Slice(pool', base, y) == Slice(pool, base, y)
    {
      CopiedApart(mid, pool', base, e[i], data, y);
    }
  }

  method CopyIn(pool: array<byte>, base: int, x: Extent, data: seq<byte>)
    requires Inside(x, base, pool.Length) && |data| <= x.size
    modifies pool
    ensures Copied(old(pool[..]), pool[..], base, x, data)
  {
    var at := x.ptr - base;
    forall k | 0 <= k < |data| {
      pool[at + k] := data[k];
    }
  }

  ghost predicate SameAt(pool: seq<byte>, pool': seq<byte>, base: int, x: Extent) {
    Inside(x, base, |pool|) && |pool| == |pool'| ==> Slice(pool', base, x) == Slice(pool, base, x)
  }

  /** No byte of a block's tags or of a guard's was written. */
  ghost predicate SameTags(r: Region, l: Layout, pool: seq<byte>, pool': seq<byte>, base: int) {
    && (forall a {:trigger End(l.sizes, a)} | a in l.sizes ::
          && SameAt(pool, pool', base, HeaderAt(a))
          && SameAt(pool, pool', base, FooterAt(End(l.sizes, a) - FOOTER_SIZE)))
    && SameAt(pool, pool', base, FooterAt(r.lo - FOOTER_SIZE)) && SameAt(pool, pool', base, HeaderAt(r.hi))
  }

  /** Writing a value's extents leaves all tags alone. */
  lemma TagsSurvive(heap: H.Heap, pool: seq<byte>, pool': seq<byte>, base: int, w: Owner)
    requires heap.Valid(Limbo) && w.Used? && w in Chains(heap.l) && OnlyIn(pool, pool', base, Exts(heap.l, w))
    ensures SameTags(heap.reg, heap.l, pool, pool', base)
  {
    heap.Basics(Limbo);
    hide H.Heap.Valid, Exts, Chains, Tiled, Owned, Slice;
    var r, l, n := heap.reg, heap.l, |Chains(heap.l)[w]|;
    forall a | a in l.sizes
      ensures SameAt(pool, pool', base, HeaderAt(a))
      ensures SameAt(pool, pool', base, FooterAt(End(l.sizes, a) - FOOTER_SIZE))
    {
      forall i | 0 <= i < n
        ensures Apart(Exts(l, w)[i], HeaderAt(a)) && Apart(Exts(l, w)[i], FooterAt(End(l.sizes, a) - FOOTER_SIZE))
      {
        TagsApart(r, l, a, w, i);
      }
    }
    forall i | 0 <= i < n
      ensures Apart(Exts(l, w)[i], FooterAt(r.lo - FOOTER_SIZE)) && Apart(Exts(l, w)[i], HeaderAt(r.hi))
    {
      GuardsApart(r, l, w, i);
    }
  }

  /** Copy a value into the extents of its chain. With a tight chain every extent receives some of it. */
  method PopulateExtents(heap: H.Heap, pool: array<byte>, base: int, extents: int, value: seq<byte>, ghost w: Owner)
    returns (reached: bool)
    requires heap.Valid(Limbo) && w.Used? && w in Chains(heap.l) && extents == At(Chains(heap.l)[w], 0)
    requires AllInside(Exts(heap.l, w), base, pool.Length) && AllApart(Exts(heap.l, w))
    requires |value| <= Room(Exts(heap.l, w))
    modifies pool
    ensures reached <==> Exts(heap.l, w) == [] || Room(Exts(heap.l, w)[..|Exts(heap.l, w)| - 1]) < |value|
    ensures Stored(pool[..], base, Exts(heap.l, w), |value|) == value
    ensures OnlyIn(old(pool[..]), pool[..], base, Exts(heap.l, w))
    ensures SameTags(heap.reg, heap.l, old(pool[..]), pool[..], base)
  {
    hide H.Heap.Valid, Exts, At, Chains, Gather, Written, OnlyIn, SameTags;
    ghost var e := Exts(heap.l, w);
    ghost var i := 0;
    var sizeLeft := |value|;
    var ptr := extents;
    reached := true;
    ScatterStart(pool[..], base, e, value);
    while ptr != 0
      invariant 0 <= i <= |e| && ptr == At(Chains(heap.l)[w], i)
      invariant 0 <= sizeLeft <= |value| && heap.Valid(Limbo)
      invariant AllInside(e[..i], base, pool.Length) && Written(pool[..], base, e[..i], value, |value| - sizeLeft)
      invariant OnlyIn(old(pool[..]), pool[..], base, e)
      invariant reached <==> i == 0 || Room(e[..i - 1]) < |value|
      decreases |e| - i
    {
      ChainEnd(heap, w, i);
      StillLeft(pool[..], base, e, i, value, |value| - sizeLeft);
      reached := reached && sizeLeft > 0;
      var size, next := heap.ReadExtent(ptr, w, i);
      var len := if size < sizeLeft then size else sizeLeft;
      var pos := |value| - sizeLeft;
      ghost var before := pool[..];
      CopyIn(pool, base, Extent(ptr, size), value[pos..pos + len]);
      ScatterStep(before, pool[..], base, e, i, value, pos, len);
      OnlyInStep(old(pool[..]), before, pool[..], base, e, i, value[pos..pos + len]);
      sizeLeft := sizeLeft - len;
      ptr := next;
      i := i + 1;
    }
    ChainEnd(heap, w, i);
    ScatterEnd(pool[..], base, e, value, |value| - sizeLeft);
    TagsSurvive(heap, old(pool[..]), pool[..], base, w);
  }

  // ---------- gathering

  /** While skipping, nothing has been copied; afterwards the copy has reached the end of the first `i` extents. */
  ghost predicate Gathered(g: seq<byte>, reached: int, start: int, offset: int, buf: seq<byte>) {
    && 0 <= start && 0 <= offset && 0 <= reached
    && (offset > 0 ==> offset == start - reached && buf == [])
    && (offset == 0 ==> start + |buf| == reached && reached <= |g| && buf == g[start..reached])
  }

  lemma GatherStart(pool: seq<byte>, base: int, e: seq<Extent>, vsize: int, start: int)
    requires AllInside(e, base, |pool|) && 0 <= vsize <= Room(e) && 0 <= start
    ensures |Stored(pool, base, e, vsize)| == vsize
    ensures Gathered(Stored(pool, base, e, vsize), Room(e[..0]), start, start, [])
    ensures start >= vsize ==> forall room | 0 <= room :: Window(Stored(pool, base, e, vsize), start, room) == []
  {
    GatherRoom(pool, base, e);
  }

  lemma RoomStep(e: seq<Extent>, i: int)
    requires 0 <= i < |e|
    ensures Room(e[..i + 1]) == Room(e[..i]) + e[i].size
  {
    assert e[..i + 1][..i] == e[..i];
  }

  lemma GatherSkip(g: seq<byte>, reached: int, start: int, off: int, buf: seq<byte>, size: int)
    requires Gathered(g, reached, start, off, buf) && 0 <= size < off
    ensures Gathered(g, reached + size, start, off - size, buf)
  {
  }

  /** Part of an extent is the corresponding part of the value. */
  lemma SliceInValue(pool: seq<byte>, base: int, e: seq<Extent>, i: int, vsize: int, k: int, len: int)
    requires AllInside(e, base, |pool|) && 0 <= vsize <= Room(e) && 0 <= i < |e|
    requires 0 <= k && 0 <= len && k + len <= e[i].size && Room(e[..i]) + k + len <= vsize
    ensures |Stored(pool, base, e, vsize)| == vsize && 0 <= Room(e[..i])
    ensures 0 <= e[i].ptr - base && e[i].ptr - base + k + len <= |pool|
    ensures pool[e[i].ptr - base + k..e[i].ptr - base + k + len]
            == Stored(pool, base, e, vsize)[Room(e[..i]) + k..Room(e[..i]) + k + len]
  {
    hide Gather, Room, AllInside;
    GatherRoom(pool, base, e);
    GatherStep(pool, base, e, i);
    GatherRoom(pool, base, e[..i]);
    GatherPrefix(pool, base, e, i + 1);
    OneInside(e, base, |pool|, i);
    PrefixPart(Gather(pool, base, e), Gather(pool, base, e[..i]), Slice(pool, base, e[i]), k, len, vsize);
    SliceOfSlice(pool, base, e[i], k, len);
  }

  lemma SliceOfSlice(pool: seq<byte>, base: int, x: Extent, k: int, len: int)
    requires Inside(x, base, |pool|) && 0 <= k && 0 <= len && k + len <= x.size
    ensures Slice(pool, base, x)[k..k + len] == pool[x.ptr - base + k..x.ptr - base + k + len]
  {
    SubSub(pool, x.ptr - base, x.size, k, len);
  }

  lemma SubSub(s: seq<byte>, a: int, n: int, k: int, len: int)
    requires 0 <= a && 0 <= n && a + n <= |s| && 0 <= k && 0 <= len && k + len <= n
    ensures s[a..a + n][k..k + len] == s[a + k..a + k + len]
  {
    var t, c := s[a..a + n], a + k;
    var u, v := t[k..k + len], s[c..c + len];
    forall i | 0 <= i < len ensures u[i] == v[i] {
      var j := k + i;
      assert u[i] == t[j] && t[j] == s[a + j] && v[i] == s[c + i];
    }
  }

  lemma OneInside(e: seq<Extent>, base: int, n: int, i: int)
    requires AllInside(e, base, n) && 0 <= i < |e|
    ensures Inside(e[i], base, n)
  {
  }

  lemma PrefixPart(all: seq<byte>, g: seq<byte>, t: seq<byte>, k: int, len: int, vsize: int)
    requires g + t <= all && 0 <= k && 0 <= len && k + len <= |t| && |g| + k + len <= vsize <= |all|
    ensures all[..vsize][|g| + k..|g| + k + len] == t[k..k + len]
  {
    var gt, a := g + t, |g| + k;
    assert all[..|gt|] == gt;
    assert all[..vsize][a..a + len] == all[..|gt|][a..a + len];
    assert gt[a..a + len] == t[k..k + len];
  }

  lemma GatherCopy(pool: seq<byte>, base: int, e: seq<Extent>, i: int, vsize: int, start: int, off: int, buf: seq<byte>,
                   vbufsize: int, len: int)
    requires AllInside(e, base, |pool|) && 0 <= vsize <= Room(e) && 0 <= i < |e| && 0 <= start < vsize
    requires Gathered(Stored(pool, base, e, vsize), Room(e[..i]), start, off, buf) && 0 <= off <= e[i].size
    requires |buf| <= vbufsize && |buf| < vsize - start
    requires len == Min(e[i].size - off, Min(vsize - start - |buf|, vbufsize - |buf|))
    ensures 0 <= len && |Stored(pool, base, e, vsize)| == vsize
    ensures 0 <= e[i].ptr + off - base && e[i].ptr + off - base + len <= |pool|
    ensures var g, out := Stored(pool, base, e, vsize), buf + pool[e[i].ptr + off - base..e[i].ptr + off - base + len];
            && |out| == |buf| + len
            && (len == vsize - start - |buf| || len == vbufsize - |buf| ==> out == Window(g, start, vbufsize))
            && (len < vsize - start - |buf| && len < vbufsize - |buf| ==> Gathered(g, Room(e[..i + 1]), start, 0, out))
  {
    hide Gather, Room, Stored, AllInside, Inside;
    RoomStep(e, i);
    OneInside(e, base, |pool|, i);
    SliceInValue(pool, base, e, i, vsize, off, len);
    CopyMore(Stored(pool, base, e, vsize), Room(e[..i]), e[i].size, start, off, buf, vbufsize, len);
  }

  lemma CopyMore(g: seq<byte>, reached: int, size: int, start: int, off: int, buf: seq<byte>, vbufsize: int, len: int)
    requires Gathered(g, reached, start, off, buf) && 0 <= off <= size && 0 <= start < |g|
    requires |buf| <= vbufsize && |buf| < |g| - start
    requires len == Min(size - off, Min(|g| - start - |buf|, vbufsize - |buf|))
    ensures 0 <= len && 0 <= reached + off && reached + off + len <= |g|
    ensures var out := buf + g[reached + off..reached + off + len];
            && (len == |g| - start - |buf| || len == vbufsize - |buf| ==> out == Window(g, start, vbufsize))
            && (len < |g| - start - |buf| && len < vbufsize - |buf| ==> Gathered(g, reached + size, start, 0, out))
  {
    var p := reached + off;
    assert p == start + |buf| && buf == g[start..p];
    assert g[start..p] + g[p..p + len] == g[start..p + len];
  }

  function Min(a: int, b: int): int {
    if a < b then a else b
  }

  lemma GatherEnd(e: seq<Extent>, g: seq<byte>, start: int, off: int, buf: seq<byte>)
    requires Gathered(g, Room(e[..|e|]), start, off, buf) && |g| <= Room(e)
    requires start < |g|
    ensures off == 0 && |buf| == |g| - start
  {
    assert e[..|e|] == e;
  }

  /** Copy from the extents of a chain into a buffer, starting at `offset`. */
  method PopulateValue(heap: H.Heap, pool: array<byte>, base: int, extents: int, vsize: int,
                       hasBuf: bool, vbufsize: int, offset: int, ghost w: Owner) returns (buf: seq<byte>)
    requires heap.Valid(Limbo) && w.Used? && w in Chains(heap.l) && extents == At(Chains(heap.l)[w], 0)
    requires AllInside(Exts(heap.l, w), base, pool.Length) && 0 <= vsize <= Room(Exts(heap.l, w))
    requires 0 <= vbufsize && 0 <= offset
    ensures buf == if hasBuf then Window(Stored(pool[..], base, Exts(heap.l, w), vsize), offset, vbufsize) else []
  {
    hide H.Heap.Valid, Exts, At, Chains, Gather, Stored, Gathered, Window, Room;
    ghost var e := Exts(heap.l, w);
    ghost var g := Stored(pool[..], base, e, vsize);
    GatherStart(pool[..], base, e, vsize, offset);
    buf := [];
    if !hasBuf || offset >= vsize {
      return;
    }
    var off := offset;
    var leftToCopy := vsize - offset;
    var room := vbufsize;
    ghost var i := 0;
    var ptr := extents;
    while ptr != 0
      invariant 0 <= i <= |e| && ptr == At(Chains(heap.l)[w], i) && 0 <= off
      invariant |buf| <= vbufsize && room == vbufsize - |buf| && leftToCopy == vsize - offset - |buf| && 0 < leftToCopy
      invariant Gathered(g, Room(e[..i]), offset, off, buf)
      decreases |e| - i
    {
      ChainEnd(heap, w, i);
      var size, next := heap.ReadExtent(ptr, w, i);
      RoomStep(e, i);
      if off > size {
        GatherSkip(g, Room(e[..i]), offset, off, buf, size);
        off := off - size;
        i := i + 1;
        ptr := next;
        continue;
      }
      var at := ptr + off;
      var len := size - off;
      var maxLen := if leftToCopy < room then leftToCopy else room;
      if len > maxLen {
        len := maxLen;
      }
      GatherCopy(pool[..], base, e, i, vsize, offset, off, buf, vbufsize, len);
      off := 0;
      i := i + 1;
      buf := buf + pool[at - base..at - base + len];
      room := room - len;
      leftToCopy := leftToCopy - len;
      if room == 0 || leftToCopy == 0 {
        return;
      }
      ptr := next;
    }
    ChainEnd(heap, w, i);
    GatherEnd(e, g, offset, off, buf);
  }

  /** Nothing outside the extents changed. */
  ghost predicate OnlyIn(pool: seq<byte>, pool': seq<byte>, base: int, e: seq<Extent>) {
    && |pool| == |pool'|
    && (forall y {:trigger Slice(pool', base, y)} | Inside(y, base, |pool|) && (forall i | 0 <= i < |e| :: Apart(e[i], y)) ::
          Slice(pool', base, y) == Slice(pool, base, y))
  }
}
