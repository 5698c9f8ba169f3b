/** The extent heap as a tiling of one region, and the doubly linked lists threaded through it. */
module HeapLayout {
  import opened Sequences

  const HEADER_SIZE := 24
  const FOOTER_SIZE := 8
  const HFER_SIZE := 32
  const FLAG_ALLOCATED := 0x8000_0000_0000_0000

  /** The mapped region between the two guards, and the extent size. */
  datatype Region = Region(lo: int, hi: int, extentSize: int) {
    ghost predicate Valid() {
      && 0 < lo
      && lo + HFER_SIZE < hi < FLAG_ALLOCATED
      && 256 <= extentSize < FLAG_ALLOCATED
    }

    function MinBlock(): int {
      if extentSize <= hi - lo then extentSize else hi - lo
    }
  }

  /** Who holds a block: the free list, the chain of one value, or nobody (an operation is moving it). */
  datatype Owner = Free | Used(id: int) | Limbo

  type Sizes = map<int, int>
  type Owners = map<int, Owner>
  type Lists = map<Owner, seq<int>>

  /** Blocks by start address (size with header and footer), their owners, and the lists in link order. */
  datatype Layout = Layout(sizes: Sizes, owners: Owners, lists: Lists)

  /** A block without its header and footer. */
  datatype Extent = Extent(ptr: int, size: int)

  ghost predicate Apart(x: Extent, y: Extent) {
    x.ptr + x.size <= y.ptr || y.ptr + y.size <= x.ptr
  }

  datatype Header = Header(next: int, prev: int, sizeFlags: int)

  // ---------- sequences

  function RemoveAt(s: seq<int>, k: int): seq<int>
    requires 0 <= k < |s|
  {
    s[..k] + s[k + 1..]
  }

  /** The extent pointer of the k-th element, NULL (0) outside the list. */
  function At(s: seq<int>, k: int): int {
    if 0 <= k < |s| then s[k] + HEADER_SIZE else 0
  }

  // ---------- the tiling

  /** The address just past a block, where the next one starts. */
  function End(z: Sizes, a: int): int
    requires a in z
  {
    a + z[a]
  }

  ghost predicate InRegion(r: Region, z: Sizes) {
    forall a {:trigger End(z, a)} | a in z :: r.lo <= a && r.MinBlock() <= z[a] && End(z, a) <= r.hi
  }

  ghost predicate Contiguous(r: Region, z: Sizes) {
    && r.lo in z
    && (forall a {:trigger End(z, a)} | a in z :: End(z, a) == r.hi || End(z, a) in z)
  }

  ghost predicate Disjoint(z: Sizes) {
    forall a, c {:trigger End(z, a), End(z, c)} | a in z && c in z && a < c :: End(z, a) <= c
  }

  /** The blocks tile the region exactly: they stay inside, follow one another without gap, and do not overlap. */
  ghost predicate Tiled(r: Region, z: Sizes) {
    InRegion(r, z) && Contiguous(r, z) && Disjoint(z)
  }

  ghost predicate Aligned(r: Region, z: Sizes)
    requires r.extentSize > 0
  {
    forall a | a in z :: (a - r.lo) % r.extentSize == 0
  }

  ghost predicate Coalesced(z: Sizes, o: Owners)
    requires o.Keys == z.Keys
  {
    forall a {:trigger End(z, a)} | a in z && o[a] == Free && End(z, a) in z :: o[End(z, a)] != Free
  }

  ghost predicate Owned(l: Layout) {
    && l.owners.Keys == l.sizes.Keys
    && Free in l.lists && Limbo !in l.lists
    && (forall w, i {:trigger l.lists[w][i]} | w in l.lists && 0 <= i < |l.lists[w]| ::
          l.lists[w][i] in l.owners && l.owners[l.lists[w][i]] == w)
    && (forall a | a in l.owners && l.owners[a] != Limbo ::
          l.owners[a] in l.lists && a in l.lists[l.owners[a]])
    && (forall w | w in l.lists :: Distinct(l.lists[w]))
  }

  // ---------- tags and links

  function Pack(size: int, used: bool): int {
    if used then size + FLAG_ALLOCATED else size
  }

  ghost predicate TagOf(hdr: map<int, Header>, ftr: map<int, int>, a: int, size: int, w: Owner) {
    && a in hdr
    && hdr[a].sizeFlags == Pack(size - HFER_SIZE, w != Free)
    && a + size - FOOTER_SIZE in ftr
    && ftr[a + size - FOOTER_SIZE] == hdr[a].sizeFlags
  }

  ghost predicate Guarded(r: Region, hdr: map<int, Header>, ftr: map<int, int>) {
    && r.lo - FOOTER_SIZE in ftr && ftr[r.lo - FOOTER_SIZE] >= FLAG_ALLOCATED
    && r.hi in hdr && hdr[r.hi].sizeFlags >= FLAG_ALLOCATED
  }

  ghost predicate Tagged(hdr: map<int, Header>, ftr: map<int, int>, z: Sizes, o: Owners) {
    forall a | a in z && a in o && o[a] != Limbo :: TagOf(hdr, ftr, a, z[a], o[a])
  }

  /** The k-th header points to its neighbours in the list (the first one's `prev` is left open). */
  ghost predicate LinkAt(hdr: map<int, Header>, s: seq<int>, k: int)
    requires 0 <= k < |s|
  {
    && s[k] in hdr
    && hdr[s[k]].next == At(s, k + 1)
    && (k > 0 ==> hdr[s[k]].prev == At(s, k - 1))
  }

  ghost predicate Linked(hdr: map<int, Header>, s: seq<int>) {
    forall k | 0 <= k < |s| :: LinkAt(hdr, s, k)
  }

  ghost predicate Headed(hdr: map<int, Header>, s: seq<int>) {
    s != [] ==> s[0] in hdr && hdr[s[0]].prev == 0
  }

  /** All lists are linked; the list of `ex` may have a stale `prev` in its first element. */
  ghost predicate AllLinked(hdr: map<int, Header>, lists: Lists, ex: Owner) {
    forall w | w in lists :: Linked(hdr, lists[w]) && (w != ex ==> Headed(hdr, lists[w]))
  }

  // ---------- the four moves

  function Take(l: Layout, w: Owner, k: int): Layout
    requires w in l.lists && 0 <= k < |l.lists[w]|
  {
    l.(owners := l.owners[l.lists[w][k] := Limbo], lists := l.lists[w := RemoveAt(l.lists[w], k)])
  }

  function Give(l: Layout, a: int, w: Owner): Layout
    requires w in l.lists
  {
    l.(owners := l.owners[a := w], lists := l.lists[w := [a] + l.lists[w]])
  }

  function Split(l: Layout, a: int, n: int): Layout
    requires a in l.sizes
  {
    l.(sizes := l.sizes[a := n][a + n := l.sizes[a] - n], owners := l.owners[a + n := Limbo])
  }

  function Join(l: Layout, a: int): Layout
    requires a in l.sizes && End(l.sizes, a) in l.sizes
  {
    var c := End(l.sizes, a);
    l.(sizes := (l.sizes - {c})[a := l.sizes[a] + l.sizes[c]], owners := l.owners - {c})
  }

  // ---------- Owned is kept

  lemma TakeOwned(l: Layout, w: Owner, k: int)
    requires Owned(l) && w in l.lists && 0 <= k < |l.lists[w]|
    ensures Owned(Take(l, w, k))
  {
    var s := l.lists[w];
    var t := RemoveAt(s, k);
    forall x | x in s && x != s[k] ensures x in t {
      var i :| 0 <= i < |s| && s[i] == x;
      assert x == if i < k then t[i] else t[i - 1];
    }
  }

  lemma GiveOwned(l: Layout, a: int, w: Owner)
    requires Owned(l) && w in l.lists && a in l.owners && l.owners[a] == Limbo
    ensures Owned(Give(l, a, w))
  {
  }

  lemma SplitOwned(l: Layout, a: int, n: int)
    requires Owned(l) && a in l.sizes && a + n !in l.sizes
    ensures Owned(Split(l, a, n))
  {
  }

  lemma JoinOwned(l: Layout, a: int)
    requires Owned(l) && a in l.sizes && l.sizes[a] > 0
    requires End(l.sizes, a) in l.sizes && l.owners[End(l.sizes, a)] == Limbo
    ensures Owned(Join(l, a))
  {
  }

  // ---------- Tiled is kept

  lemma StartsApart(z: Sizes, a: int, c: int)
    requires Disjoint(z) && a in z && c in z
    ensures c <= a || End(z, a) <= c
  {
    assert End(z, c) == c + z[c];
  }

  lemma SplitDisjoint(z: Sizes, a: int, n: int)
    requires Disjoint(z) && a in z && 0 < n < z[a] && a + n !in z
    ensures Disjoint(z[a := n][a + n := z[a] - n])
  {
    var y := z[a := n][a + n := z[a] - n];
    forall x, c | x in y && c in y && x < c ensures End(y, x) <= c {
      var x', c' := if x == a + n then a else x, if c == a + n then a else c;
      assert End(z, x') == x' + z[x'] && End(z, c') == c' + z[c'] && End(z, a) == a + z[a];
    }
  }

  lemma SplitInRegion(r: Region, z: Sizes, a: int, n: int)
    requires r.Valid() && InRegion(r, z) && a in z
    requires r.MinBlock() <= n && r.MinBlock() <= z[a] - n
    ensures InRegion(r, z[a := n][a + n := z[a] - n])
  {
    var y := z[a := n][a + n := z[a] - n];
    forall x | x in y ensures r.lo <= x && r.MinBlock() <= y[x] && End(y, x) <= r.hi {
      var x' := if x == a + n then a else x;
      assert End(z, x') == x' + z[x'];
    }
  }

  lemma SplitContiguous(r: Region, z: Sizes, a: int, n: int)
    requires Contiguous(r, z) && a in z && n != 0
    ensures Contiguous(r, z[a := n][a + n := z[a] - n])
  {
    var y := z[a := n][a + n := z[a] - n];
    forall x | x in y ensures End(y, x) == r.hi || End(y, x) in y {
      var x' := if x == a + n then a else x;
      assert End(z, x') == x' + z[x'];
    }
  }

  lemma SplitTiled(r: Region, z: Sizes, a: int, n: int)
    requires r.Valid() && Tiled(r, z) && a in z
    requires r.MinBlock() <= n && r.MinBlock() <= z[a] - n
    ensures Tiled(r, z[a := n][a + n := z[a] - n])
    ensures a + n !in z
  {
    forall c | c in z ensures c != a + n { StartsApart(z, a, c); }
    hide InRegion, Contiguous, Disjoint;
    SplitDisjoint(z, a, n);
    SplitInRegion(r, z, a, n);
    SplitContiguous(r, z, a, n);
  }

  lemma JoinTiled(r: Region, z: Sizes, a: int)
    requires r.Valid() && Tiled(r, z) && a in z && End(z, a) in z
    ensures Tiled(r, (z - {End(z, a)})[a := z[a] + z[End(z, a)]])
  {
    var e := End(z, a);
    var y := (z - {e})[a := z[a] + z[e]];
    assert End(z, e) <= r.hi;
    forall x | x in y && x != a ensures End(y, x) == End(z, x) != e {}
    forall x, c | x in y && c in y && x < c ensures End(y, x) <= c {
      assert End(z, x) <= r.hi && End(z, c) <= r.hi;
    }
  }

  /** Every byte of the region lies in some block. */
  lemma {:induction false} Covered(r: Region, z: Sizes, from: int, x: int) returns (a: int)
    requires r.Valid() && Tiled(r, z) && from in z && from <= x < r.hi
    ensures a in z && a <= x < End(z, a)
    decreases r.hi - from
  {
    a := from;
    if x >= End(z, from) {
      a := Covered(r, z, End(z, from), x);
    }
  }

  lemma Predecessor(r: Region, z: Sizes, c: int) returns (a: int)
    requires r.Valid() && Tiled(r, z) && c in z && c != r.lo
    ensures a in z && End(z, a) == c
  {
    assert End(z, c) > c;
    a := Covered(r, z, r.lo, c - 1);
  }

  // ---------- links and tags are kept

  ghost predicate HasNeighbours(hdr: map<int, Header>, x: int) {
    && x in hdr
    && (hdr[x].next != 0 ==> hdr[x].next - HEADER_SIZE in hdr)
    && (hdr[x].prev != 0 ==> hdr[x].prev - HEADER_SIZE in hdr)
  }

  /** Bypass the entry at `x`: what its neighbours' headers become. */
  ghost function Unlink(hdr: map<int, Header>, x: int): map<int, Header>
    requires HasNeighbours(hdr, x)
  {
    var n, p := hdr[x].next - HEADER_SIZE, hdr[x].prev - HEADER_SIZE;
    var h := if hdr[x].next != 0 then hdr[n := hdr[n].(prev := hdr[x].prev)] else hdr;
    if hdr[x].prev != 0 then h[p := h[p].(next := hdr[x].next)] else h
  }

  /** Write a header (and fix the old first element's) for an entry put in front of list `s`. */
  function LinkFront(hdr: map<int, Header>, s: seq<int>, a: int, flags: int): map<int, Header>
    requires s != [] ==> s[0] in hdr
  {
    var h := hdr[a := Header(At(s, 0), 0, flags)];
    if s != [] then h[s[0] := h[s[0]].(prev := a + HEADER_SIZE)] else h
  }

  ghost predicate Positive(s: seq<int>) {
    forall i | 0 <= i < |s| :: s[i] > 0
  }

  lemma Neighbours(hdr: map<int, Header>, s: seq<int>, k: int)
    requires Linked(hdr, s) && Headed(hdr, s) && 0 <= k < |s|
    ensures HasNeighbours(hdr, s[k])
    ensures hdr[s[k]].next == At(s, k + 1) && hdr[s[k]].prev == At(s, k - 1)
  {
    assert LinkAt(hdr, s, k);
    assert k + 1 < |s| ==> LinkAt(hdr, s, k + 1);
    assert k > 0 ==> LinkAt(hdr, s, k - 1);
  }

  lemma UnlinkLinked(hdr: map<int, Header>, s: seq<int>, k: int)
    requires Linked(hdr, s) && Headed(hdr, s) && Positive(s) && Distinct(s) && 0 <= k < |s|
    requires HasNeighbours(hdr, s[k])
    ensures Linked(Unlink(hdr, s[k]), RemoveAt(s, k)) && Headed(Unlink(hdr, s[k]), RemoveAt(s, k))
  {
    Neighbours(hdr, s, k);
    var h, t := Unlink(hdr, s[k]), RemoveAt(s, k);
    forall j | 0 <= j < |t| ensures LinkAt(h, t, j) && h[t[j]].prev == At(t, j - 1) {
      var i := if j < k then j else j + 1;
      Neighbours(hdr, s, i);
      assert t[j] == s[i];
    }
  }

  lemma UnlinkOther(hdr: map<int, Header>, s: seq<int>, k: int, t: seq<int>)
    requires Linked(hdr, s) && Headed(hdr, s) && 0 <= k < |s| && HasNeighbours(hdr, s[k])
    requires Linked(hdr, t) && (forall i | 0 <= i < |t| :: t[i] !in s)
    ensures Linked(Unlink(hdr, s[k]), t)
    ensures Headed(hdr, t) ==> Headed(Unlink(hdr, s[k]), t)
  {
    Neighbours(hdr, s, k);
    var h := Unlink(hdr, s[k]);
    forall i | 0 <= i < |t| ensures LinkAt(h, t, i) && h[t[i]] == hdr[t[i]] {
      assert LinkAt(hdr, t, i);
      assert k + 1 < |s| ==> t[i] != s[k + 1];
      assert k > 0 ==> t[i] != s[k - 1];
    }
  }

  lemma LinkFrontLinked(hdr: map<int, Header>, s: seq<int>, a: int, flags: int)
    requires Linked(hdr, s) && Headed(hdr, s) && Distinct(s) && a !in s
    ensures Linked(LinkFront(hdr, s, a, flags), [a] + s) && Headed(LinkFront(hdr, s, a, flags), [a] + s)
  {
    var h, t := LinkFront(hdr, s, a, flags), [a] + s;
    forall j | 0 < j < |t| ensures LinkAt(h, t, j) {
      assert t[j] == s[j - 1];
      Neighbours(hdr, s, j - 1);
    }
    assert LinkAt(h, t, 0);
  }

  lemma LinkFrontOther(hdr: map<int, Header>, s: seq<int>, a: int, flags: int, t: seq<int>)
    requires Linked(hdr, t) && a !in t && (forall i | 0 <= i < |t| :: t[i] !in s)
    requires s != [] ==> s[0] in hdr
    ensures Linked(LinkFront(hdr, s, a, flags), t)
    ensures Headed(hdr, t) ==> Headed(LinkFront(hdr, s, a, flags), t)
  {
    var h := LinkFront(hdr, s, a, flags);
    forall i | 0 <= i < |t| ensures LinkAt(h, t, i) && h[t[i]] == hdr[t[i]] {
      assert LinkAt(hdr, t, i);
      assert s != [] ==> t[i] != s[0];
    }
  }

  lemma ListsApart(l: Layout, w: Owner, v: Owner)
    requires Owned(l) && w in l.lists && v in l.lists && v != w
    ensures forall i | 0 <= i < |l.lists[v]| :: l.lists[v][i] !in l.lists[w]
  {
  }

  lemma AllPositive(r: Region, l: Layout, w: Owner)
    requires r.Valid() && Tiled(r, l.sizes) && Owned(l) && w in l.lists
    ensures Positive(l.lists[w])
  {
    forall i | 0 <= i < |l.lists[w]| ensures l.lists[w][i] > 0 {
      assert End(l.sizes, l.lists[w][i]) <= r.hi;
    }
  }

  lemma TakeLinked(r: Region, hdr: map<int, Header>, l: Layout, w: Owner, k: int, ex: Owner)
    requires r.Valid() && Tiled(r, l.sizes) && Owned(l) && AllLinked(hdr, l.lists, ex)
    requires w in l.lists && w != ex && 0 <= k < |l.lists[w]|
    ensures HasNeighbours(hdr, l.lists[w][k])
    ensures hdr[l.lists[w][k]].next == At(l.lists[w], k + 1) && hdr[l.lists[w][k]].prev == At(l.lists[w], k - 1)
    ensures AllLinked(Unlink(hdr, l.lists[w][k]), Take(l, w, k).lists, ex)
  {
    var s := l.lists[w];
    AllPositive(r, l, w);
    Neighbours(hdr, s, k);
    UnlinkLinked(hdr, s, k);
    forall v | v in l.lists && v != w
      ensures Linked(Unlink(hdr, s[k]), l.lists[v]) && (v != ex ==> Headed(Unlink(hdr, s[k]), l.lists[v]))
    {
      ListsApart(l, w, v);
      UnlinkOther(hdr, s, k, l.lists[v]);
    }
  }

  lemma GiveLinked(hdr: map<int, Header>, l: Layout, a: int, w: Owner, ex: Owner, flags: int)
    requires Owned(l) && AllLinked(hdr, l.lists, ex)
    requires w in l.lists && w != ex && a in l.owners && l.owners[a] == Limbo
    ensures l.lists[w] != [] ==> l.lists[w][0] in hdr
    ensures AllLinked(LinkFront(hdr, l.lists[w], a, flags), Give(l, a, w).lists, ex)
  {
    var s := l.lists[w];
    assert Linked(hdr, s) && Headed(hdr, s);
    LinkFrontLinked(hdr, s, a, flags);
    var h := LinkFront(hdr, s, a, flags);
    forall v | v in l.lists && v != w ensures Linked(h, l.lists[v]) && (v != ex ==> Headed(h, l.lists[v])) {
      ListsApart(l, w, v);
      LinkFrontOther(hdr, s, a, flags, l.lists[v]);
    }
  }

  lemma UnlinkTags(hdr: map<int, Header>, x: int, y: int)
    requires HasNeighbours(hdr, x) && y in hdr
    ensures y in Unlink(hdr, x) && Unlink(hdr, x)[y].sizeFlags == hdr[y].sizeFlags
  {
  }

  lemma TakeTagged(r: Region, hdr: map<int, Header>, ftr: map<int, int>, l: Layout, w: Owner, k: int)
    requires Tagged(hdr, ftr, l.sizes, l.owners) && Guarded(r, hdr, ftr) && l.owners.Keys == l.sizes.Keys
    requires w in l.lists && 0 <= k < |l.lists[w]| && HasNeighbours(hdr, l.lists[w][k])
    ensures Tagged(Unlink(hdr, l.lists[w][k]), ftr, l.sizes, Take(l, w, k).owners)
    ensures Guarded(r, Unlink(hdr, l.lists[w][k]), ftr)
  {
    var x := l.lists[w][k];
    UnlinkTags(hdr, x, r.hi);
    forall a | a in l.sizes && a != x && l.owners[a] != Limbo
      ensures TagOf(Unlink(hdr, x), ftr, a, l.sizes[a], l.owners[a])
    {
      assert TagOf(hdr, ftr, a, l.sizes[a], l.owners[a]);
      UnlinkTags(hdr, x, a);
    }
  }

  lemma GiveTagged(r: Region, hdr: map<int, Header>, ftr: map<int, int>, l: Layout, a: int, w: Owner)
    requires r.Valid() && Tiled(r, l.sizes) && Owned(l)
    requires Tagged(hdr, ftr, l.sizes, l.owners) && Guarded(r, hdr, ftr)
    requires w in l.lists && a in l.sizes && l.owners[a] == Limbo
    requires l.lists[w] != [] ==> l.lists[w][0] in hdr
    ensures var flags := Pack(l.sizes[a] - HFER_SIZE, w != Free);
            var h, f := LinkFront(hdr, l.lists[w], a, flags), ftr[End(l.sizes, a) - FOOTER_SIZE := flags];
            Tagged(h, f, l.sizes, Give(l, a, w).owners) && Guarded(r, h, f)
  {
    var flags := Pack(l.sizes[a] - HFER_SIZE, w != Free);
    var h, f := LinkFront(hdr, l.lists[w], a, flags), ftr[End(l.sizes, a) - FOOTER_SIZE := flags];
    assert End(l.sizes, a) > r.lo;
    forall c | c in l.sizes && c != a && l.owners[c] != Limbo ensures TagOf(h, f, c, l.sizes[c], l.owners[c]) {
      assert TagOf(hdr, ftr, c, l.sizes[c], l.owners[c]);
      assert End(l.sizes, c) != End(l.sizes, a);
    }
    assert l.lists[w] != [] ==> l.lists[w][0] != a;
  }
}
