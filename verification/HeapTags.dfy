/** Tags and values share one mapping: no header or footer lies in a value's bytes, so writing the one leaves the other. */
module HeapTags {
  import opened HeapLayout
  import opened HeapInvariant

  type Headers = map<int, Header>
  type Footers = map<int, int>

  function HeaderAt(a: int): Extent {
    Extent(a, HEADER_SIZE)
  }

  function FooterAt(a: int): Extent {
    Extent(a, FOOTER_SIZE)
  }

  /** The tags of every block, whoever holds it, lie outside every value's extents. */
  lemma TagsApart(r: Region, l: Layout, a: int, v: Owner, i: int)
    requires r.Valid() && Tiled(r, l.sizes) && Owned(l) && a in l.sizes
    requires v.Used? && v in Chains(l) && 0 <= i < |Chains(l)[v]|
    ensures Apart(Exts(l, v)[i], HeaderAt(a)) && Apart(Exts(l, v)[i], FooterAt(End(l.sizes, a) - FOOTER_SIZE))
  {
    ChainIsHeld(l, v);
    var c := Chains(l)[v][i];
    BlockRange(r, l.sizes, c);
    BlockRange(r, l.sizes, a);
    StartsApart(l.sizes, a, c);
    StartsApart(l.sizes, c, a);
  }

  /** So do the words of the guards that the heap reads and writes. */
  lemma GuardsApart(r: Region, l: Layout, v: Owner, i: int)
    requires r.Valid() && Tiled(r, l.sizes) && Owned(l) && v.Used? && v in Chains(l) && 0 <= i < |Chains(l)[v]|
    ensures Apart(Exts(l, v)[i], FooterAt(r.lo - FOOTER_SIZE)) && Apart(Exts(l, v)[i], HeaderAt(r.hi))
  {
    ChainIsHeld(l, v);
    BlockRange(r, l.sizes, Chains(l)[v][i]);
  }

  /** Headers and footers, of one block or of two, do not overlap each other or the guards' words. */
  lemma TagsDisjoint(r: Region, l: Layout, a: int, b: int)
    requires r.Valid() && Tiled(r, l.sizes) && a in l.sizes && b in l.sizes
    ensures var f, g := FooterAt(End(l.sizes, a) - FOOTER_SIZE), FooterAt(End(l.sizes, b) - FOOTER_SIZE);
            && Apart(HeaderAt(a), g) && (a != b ==> Apart(HeaderAt(a), HeaderAt(b)) && Apart(f, g))
            && Apart(HeaderAt(a), FooterAt(r.lo - FOOTER_SIZE)) && Apart(HeaderAt(a), HeaderAt(r.hi))
            && Apart(f, FooterAt(r.lo - FOOTER_SIZE)) && Apart(f, HeaderAt(r.hi))
  {
    BlockRange(r, l.sizes, a);
    BlockRange(r, l.sizes, b);
    StartsApart(l.sizes, a, b);
    StartsApart(l.sizes, b, a);
  }

  /** These bytes belong to no value but perhaps `w`. */
  ghost predicate Misses(l: Layout, w: Owner, x: Extent) {
    forall v, i {:trigger Exts(l, v)[i]} | v in Chains(l) && v.Used? && v != w && 0 <= i < |Chains(l)[v]| ::
      Apart(Exts(l, v)[i], x)
  }

  ghost predicate Changed<T>(m: map<int, T>, m': map<int, T>, x: int) {
    x in m' && (x !in m || m'[x] != m[x])
  }

  /** Whatever tags were written, they lie outside the values (other than `w`) of this layout. */
  ghost predicate WritesMiss(l: Layout, w: Owner, h: Headers, f: Footers, h': Headers, f': Footers) {
    && (forall x | Changed(h, h', x) :: Misses(l, w, HeaderAt(x)))
    && (forall y | Changed(f, f', y) :: Misses(l, w, FooterAt(y)))
  }

  lemma NoWrites(l: Layout, w: Owner, h: Headers, f: Footers)
    ensures WritesMiss(l, w, h, f, h, f)
  {
  }

  lemma HeaderMisses(r: Region, l: Layout, a: int)
    requires r.Valid() && Tiled(r, l.sizes) && Owned(l) && a in l.sizes
    ensures Misses(l, Free, HeaderAt(a)) && Misses(l, Free, FooterAt(End(l.sizes, a) - FOOTER_SIZE))
  {
    hide Tiled, Owned, Exts, Chains;
    forall v, i | v in Chains(l) && v.Used? && 0 <= i < |Chains(l)[v]|
      ensures Apart(Exts(l, v)[i], HeaderAt(a)) && Apart(Exts(l, v)[i], FooterAt(End(l.sizes, a) - FOOTER_SIZE))
    {
      TagsApart(r, l, a, v, i);
    }
  }

  /** Writes to headers of blocks. */
  lemma HeaderWrites(r: Region, l: Layout, h: Headers, h': Headers, f: Footers)
    requires r.Valid() && Tiled(r, l.sizes) && Owned(l) && (forall x | Changed(h, h', x) :: x in l.sizes)
    ensures WritesMiss(l, Free, h, f, h', f)
  {
    hide Tiled, Owned, Misses;
    forall x | Changed(h, h', x) ensures Misses(l, Free, HeaderAt(x)) { HeaderMisses(r, l, x); }
  }

  /** What linking a block into a list writes. */
  lemma InsertWrites(r: Region, l: Layout, s: seq<int>, a: int, flags: int, h: Headers, f: Footers)
    requires r.Valid() && Tiled(r, l.sizes) && Owned(l) && a in l.sizes
    requires s != [] ==> s[0] in h && s[0] in l.sizes
    ensures WritesMiss(l, Free, h, f, LinkFront(h, s, a, flags), f[End(l.sizes, a) - FOOTER_SIZE := flags])
  {
    hide Tiled, Owned, Misses;
    var h', f' := LinkFront(h, s, a, flags), f[End(l.sizes, a) - FOOTER_SIZE := flags];
    HeaderMisses(r, l, a);
    forall x | Changed(h, h', x) ensures Misses(l, Free, HeaderAt(x)) { HeaderMisses(r, l, x); }
  }

  /** What bypassing a list element writes. */
  lemma UnlinkWrites(r: Region, hdr: Headers, ftr: Footers, first: int, l: Layout, ex: Owner, w: Owner, k: int)
    requires Inv(r, hdr, ftr, first, l, ex) && w in l.lists && w != ex && 0 <= k < |l.lists[w]|
    ensures HasNeighbours(hdr, l.lists[w][k])
    ensures WritesMiss(l, Free, hdr, ftr, Unlink(hdr, l.lists[w][k]), ftr)
  {
    hide Tiled, Coalesced, Tagged, Aligned, Guarded, AllLinked, Misses, Positive;
    TakeInv(r, hdr, ftr, first, l, ex, w, k);
    AllPositive(r, l, w);
    var s := l.lists[w];
    assert At(s, k + 1) != 0 ==> k + 1 < |s| && At(s, k + 1) - HEADER_SIZE == s[k + 1];
    assert At(s, k - 1) != 0 ==> 0 <= k - 1 && At(s, k - 1) - HEADER_SIZE == s[k - 1];
    HeaderWrites(r, l, hdr, Unlink(hdr, s[k]), ftr);
  }

  // ---------- one write after the other

  lemma WritesAny(l: Layout, w: Owner, h: Headers, f: Footers, h': Headers, f': Footers)
    requires WritesMiss(l, Free, h, f, h', f')
    ensures WritesMiss(l, w, h, f, h', f')
  {
    hide Exts, Chains;
    forall x: Extent | Misses(l, Free, x) ensures Misses(l, w, x) { }
  }

  lemma SameIsKept(l: Layout, m: Layout, w: Owner)
    requires SameChains(l, m)
    ensures OthersKept(l, m, w)
  {
  }

  lemma MissesBack(l: Layout, m: Layout, w: Owner, x: Extent)
    requires Owned(l) && OthersKept(l, m, w) && Misses(m, w, x)
    ensures Misses(l, w, x)
  {
    hide Exts, Chains, Owned, OthersKept;
    forall v, i | v in Chains(l) && v.Used? && v != w && 0 <= i < |Chains(l)[v]| ensures Apart(Exts(l, v)[i], x) {
      ExtsKept(l, m, w, v);
      assert Exts(m, v)[i] == Exts(l, v)[i];
    }
  }

  lemma WritesThen(l: Layout, m: Layout, w: Owner, h: Headers, f: Footers, h': Headers, f': Footers, h'': Headers,
                   f'': Footers)
    requires Owned(l) && OthersKept(l, m, w)
    requires WritesMiss(l, w, h, f, h', f') && WritesMiss(m, w, h', f', h'', f'')
    ensures WritesMiss(l, w, h, f, h'', f'')
  {
    hide Misses, Owned, OthersKept;
    forall x | Changed(h, h'', x) ensures Misses(l, w, HeaderAt(x)) {
      if !Changed(h, h', x) {
        assert Changed(h', h'', x);
        MissesBack(l, m, w, HeaderAt(x));
      }
    }
    forall y | Changed(f, f'', y) ensures Misses(l, w, FooterAt(y)) {
      if !Changed(f, f', y) {
        assert Changed(f', f'', y);
        MissesBack(l, m, w, FooterAt(y));
      }
    }
  }
}
