/** The extent allocator: boundary tags, the free list and the chains, changed in place. */
module Heap {
  import opened HeapLayout
  import opened HeapInvariant
  import opened HeapTags
  import opened Sums

  const GUARD_SIZE := 0x1000

  const MIN_POOL := 0x10_0000
  const MIN_EXTENT := 256

  function SetFlag(sizeFlags: int): int {
    if sizeFlags >= FLAG_ALLOCATED then sizeFlags else sizeFlags + FLAG_ALLOCATED
  }

  /** A block with its header and footer. */
  datatype HeapEntry = HeapEntry(ptr: int, size: int)

  class Heap {
    const reg: Region
    var hdr: map<int, Header>
    var ftr: map<int, int>
    var first: int
    var entries: int
    var sizeUsed: int
    ghost var l: Layout

    ghost predicate Valid(ex: Owner)
      reads this
    {
      Inv(reg, hdr, ftr, first, l, ex) && entries == |l.lists[Free]|
    }

    lemma Basics(ex: Owner)
      requires Valid(ex)
      ensures reg.Valid() && Free in l.lists && l.owners.Keys == l.sizes.Keys && Tiled(reg, l.sizes) && Owned(l)
    {
    }

    lemma NothingFree()
      requires Valid(Limbo) && l.lists[Free] == []
      ensures FreeRoom(l) == 0
    {
      NoFreeRoom(l);
    }

    /** A heap over the mapping `[addr, addr + size)`, whose memory around the guards holds anything. */
    constructor (addr: int, size: int, extentSize: int, guardFooter: int, guardHeader: Header)
      requires 0 < addr && MIN_POOL <= size && addr + size < FLAG_ALLOCATED
      requires MIN_EXTENT <= extentSize < FLAG_ALLOCATED
      requires 0 <= guardFooter < 2 * FLAG_ALLOCATED && 0 <= guardHeader.sizeFlags < 2 * FLAG_ALLOCATED
      ensures Valid(Limbo) && NoLimbo(l) && Chains(l) == map[] && Held(l) == map[]
      ensures l.lists[Free] == [reg.lo] && entries == 1 && sizeUsed == 0 && reg.extentSize == extentSize
      ensures addr + GUARD_SIZE <= reg.lo < addr + 2 * GUARD_SIZE && reg.lo % GUARD_SIZE == 0
      ensures addr + size - 2 * GUARD_SIZE < reg.hi <= addr + size - GUARD_SIZE && reg.hi % GUARD_SIZE == 0
      ensures FreeRoom(l) == reg.hi - reg.lo - HFER_SIZE
    {
      var newAddr := RoundUp(addr + GUARD_SIZE, GUARD_SIZE);
      var newSize := RoundDown(size - (newAddr - addr) - GUARD_SIZE, GUARD_SIZE);
      reg := Region(newAddr, newAddr + newSize, extentSize);
      hdr := map[newAddr + newSize := guardHeader];
      ftr := map[newAddr - FOOTER_SIZE := guardFooter];
      entries, sizeUsed := 1, 0;
      first := newAddr + HEADER_SIZE;
      l := Layout(map[newAddr := newSize], map[newAddr := Free], map[Free := [newAddr]]);
      new;
      WriteEntry(HeapEntry(newAddr, newSize), 0, Pack(newSize - HFER_SIZE, false), []);

      // mark the guards as allocated
      var prevFooter := first - HFER_SIZE;
      ftr := ftr[prevFooter := SetFlag(ftr[prevFooter])];
      var headerNext := first + (newSize - HFER_SIZE) + HFER_SIZE - HEADER_SIZE;
      hdr := hdr[headerNext := hdr[headerNext].(sizeFlags := SetFlag(hdr[headerNext].sizeFlags))];
      FreshInv(reg, hdr, ftr, l);
      OneFreeRoom(l, newAddr, newSize);
    }

    /** Start an empty chain for the value `w`. */
    ghost method OpenChain(w: Owner)
      requires Valid(Limbo) && NoLimbo(l) && w.Used? && w !in Chains(l)
      modifies `l
      ensures Valid(Limbo) && NoLimbo(l) && l.lists[Free] == old(l).lists[Free]
      ensures Chains(l) == Chains(old(l))[w := []] && Held(l) == Held(old(l))
      ensures l.sizes == old(l).sizes && FreeRoom(l) == FreeRoom(old(l))
    {
      ChainsLookup(l, w);
      OpenInv(reg, hdr, ftr, first, l, w);
      l := l.(lists := l.lists[w := []]);
    }

    /** Write both tags of `he` and link it before the list that starts at `firstExtent`. */
    method WriteEntry(he: HeapEntry, firstExtent: int, sizeFlags: int, ghost s: seq<int>)
      requires firstExtent == At(s, 0)
      requires s != [] ==> s[0] > 0 && s[0] != he.ptr && s[0] in hdr && hdr[s[0]].prev == 0
      modifies `hdr, `ftr
      ensures hdr == LinkFront(old(hdr), s, he.ptr, sizeFlags)
      ensures ftr == old(ftr)[he.ptr + he.size - FOOTER_SIZE := sizeFlags]
    {
      var newExtent := he.ptr + HEADER_SIZE;
      hdr := hdr[he.ptr := Header(firstExtent, 0, sizeFlags)];
      ftr := ftr[he.ptr + he.size - FOOTER_SIZE := sizeFlags];
      if firstExtent != 0 {
        var firstHeader := firstExtent - HEADER_SIZE;
        assert hdr[firstHeader].prev == 0;
        hdr := hdr[firstHeader := hdr[firstHeader].(prev := newExtent)];
      }
    }

    /** Put the detached block `he` in front of the list whose first element is `firstExtent`.
        The caller's list head is assigned here when it is the heap's own. */
    method InsertHeapEntry(he: HeapEntry, firstExtent: int, isAllocated: bool, ghost w: Owner, ghost ex: Owner)
      returns (newFirst: int)
      requires Valid(ex) && w in l.lists && w != ex && w.Free? == !isAllocated
      requires firstExtent == At(l.lists[w], 0)
      requires he.ptr in l.sizes && he.size == l.sizes[he.ptr]
      requires he.ptr in l.owners && l.owners[he.ptr] == Limbo
      requires w == Free ==> LeftBusy(l, he.ptr) && RightBusy(l, he.ptr)
      modifies `hdr, `ftr, `first, `entries, `l
      ensures Valid(ex) && l == Give(old(l), he.ptr, w)
      ensures newFirst == he.ptr + HEADER_SIZE
      ensures WritesMiss(old(l), Free, old(hdr), old(ftr), hdr, ftr)
    {
      hide Inv, WritesMiss, Tiled, Owned;
      Basics(ex);
      FirstListed(l, w);
      GiveInv(reg, hdr, ftr, first, l, ex, he.ptr, w);
      ListHead(reg, hdr, ftr, first, l, ex, w);
      InsertWrites(reg, l, l.lists[w], he.ptr, Pack(he.size - HFER_SIZE, isAllocated), hdr, ftr);
      WriteEntry(he, firstExtent, Pack(he.size - HFER_SIZE, isAllocated), l.lists[w]);
      newFirst := he.ptr + HEADER_SIZE;
      if !isAllocated {
        first := newFirst;
        entries := entries + 1;
      }
      l := Give(l, he.ptr, w);
    }

    /** Detach the first free block; fails only when the free list is empty. */
    method PopHeapEntry() returns (ok: bool, he: HeapEntry)
      requires Valid(Limbo) && NoLimbo(l)
      modifies `hdr, `first, `entries, `l
      ensures Valid(Limbo)
      ensures ok == (old(l).lists[Free] != [])
      ensures !ok ==> l == old(l)
      ensures ok ==> l == Take(old(l), Free, 0) && he.ptr == old(l).lists[Free][0] && OnlyLimbo(l, he.ptr)
      ensures ok ==> he.ptr in l.sizes && he.size == l.sizes[he.ptr]
      ensures ok ==> l.owners.Keys == l.sizes.Keys && RightBusy(l, he.ptr)
      ensures WritesMiss(old(l), Free, old(hdr), old(ftr), hdr, ftr)
    {
      hide Tiled, Owned, Coalesced, Tagged, AllLinked, Aligned, Guarded, OnlyLimbo, NoLimbo, RightBusy, WritesMiss;
      NoWrites(l, Free, hdr, ftr);
      Basics(Limbo);
      ListHead(reg, hdr, ftr, first, l, Limbo, Free);
      if first == 0 {
        return false, HeapEntry(0, 0);
      }
      FirstFree(reg, hdr, ftr, first, l);
      UnlinkWrites(reg, hdr, ftr, first, l, Limbo, Free, 0);
      var header := first - HEADER_SIZE;
      var size := hdr[header].sizeFlags;
      assert hdr[header].prev == 0;
      assert size < FLAG_ALLOCATED && size == ftr[first + size];
      ok, he := true, HeapEntry(header, size + HFER_SIZE);
      var next := hdr[header].next;
      if next != 0 {
        var nextHeader := next - HEADER_SIZE;
        hdr := hdr[nextHeader := hdr[nextHeader].(prev := 0)];
      }
      first := next;
      entries := entries - 1;
      l := Take(l, Free, 0);
    }

    /** Make both list neighbours of a header bypass it. */
    method Bypass(header: int)
      requires HasNeighbours(hdr, header)
      modifies `hdr
      ensures hdr == Unlink(old(hdr), header)
    {
      var next, prev := hdr[header].next, hdr[header].prev;
      if next != 0 {
        var headerNext := next - HEADER_SIZE;
        hdr := hdr[headerNext := hdr[headerNext].(prev := prev)];
      }
      if prev != 0 {
        var headerPrev := prev - HEADER_SIZE;
        hdr := hdr[headerPrev := hdr[headerPrev].(next := next)];
      }
    }

    /** Detach the free block at extent pointer `ext` from wherever it is in the free list. */
    method HeapRemove(ext: int, ghost ex: Owner) returns (ghost k: int)
      requires Valid(ex)
      requires ext - HEADER_SIZE in l.owners && l.owners[ext - HEADER_SIZE] == Free
      modifies `hdr, `first, `entries, `l
      ensures Valid(ex)
      ensures 0 <= k < |old(l).lists[Free]| && old(l).lists[Free][k] == ext - HEADER_SIZE
      ensures l == Take(old(l), Free, k)
      ensures WritesMiss(old(l), Free, old(hdr), old(ftr), hdr, ftr)
    {
      hide Tiled, Owned, Coalesced, Tagged, AllLinked, Aligned, Guarded, WritesMiss;
      var header := ext - HEADER_SIZE;
      k := Place(l, header, Free);
      TakeInv(reg, hdr, ftr, first, l, ex, Free, k);
      UnlinkWrites(reg, hdr, ftr, first, l, ex, Free, k);
      ListHead(reg, hdr, ftr, first, l, ex, Free);
      assert (first == ext) == (k == 0);
      var next := hdr[header].next;
      Bypass(header);
      if first == ext {
        first := next;
      }
      entries := entries - 1;
      l := Take(l, Free, k);
    }

    /** Join the detached block `he` with the block of lower address, if its footer says it is free. */
    method MergeLeft(he: HeapEntry, ghost ex: Owner) returns (merged: HeapEntry)
      requires Valid(ex) && OnlyLimbo(l, he.ptr) && he.ptr in l.sizes && l.sizes[he.ptr] == he.size
      modifies `hdr, `first, `entries, `l
      ensures Valid(ex) && OnlyLimbo(l, merged.ptr) && l.owners.Keys == l.sizes.Keys
      ensures merged.ptr in l.sizes && merged.size == l.sizes[merged.ptr]
      ensures merged.ptr + merged.size == he.ptr + he.size
      ensures LeftBusy(l, merged.ptr) && SameChains(old(l), l)
      ensures WritesMiss(old(l), Free, old(hdr), old(ftr), hdr, ftr)
    {
      hide WritesMiss, Held, Chains, Owned, Tiled, Coalesced, Tagged, AllLinked, Aligned, Guarded, OnlyLimbo, LeftBusy;
      Basics(ex);
      NoWrites(l, Free, hdr, ftr);
      ReadLeft(reg, hdr, ftr, l, he.ptr);
      var prevFooter := he.ptr - FOOTER_SIZE;
      var prevSize := ftr[prevFooter];
      merged := he;
      if prevSize < FLAG_ALLOCATED {
        var prevPtr := prevFooter - prevSize;
        merged := HeapEntry(prevPtr - HEADER_SIZE, he.size + prevSize + HFER_SIZE);
        ghost var k := HeapRemove(prevPtr, ex);
        AbsorbLeft(reg, hdr, ftr, first, old(l), ex, he.ptr, k);
        l := Join(l, merged.ptr);
      }
    }

    /** Join the detached block `he` with the block of higher address, if its header says it is free. */
    method MergeRight(he: HeapEntry, ghost ex: Owner) returns (merged: HeapEntry)
      requires Valid(ex) && OnlyLimbo(l, he.ptr) && he.ptr in l.sizes && l.sizes[he.ptr] == he.size
      requires l.owners.Keys == l.sizes.Keys && LeftBusy(l, he.ptr)
      modifies `hdr, `first, `entries, `l
      ensures Valid(ex) && OnlyLimbo(l, merged.ptr) && l.owners.Keys == l.sizes.Keys
      ensures merged.ptr in l.sizes && merged.size == l.sizes[merged.ptr]
      ensures LeftBusy(l, merged.ptr) && RightBusy(l, merged.ptr) && SameChains(old(l), l)
      ensures WritesMiss(old(l), Free, old(hdr), old(ftr), hdr, ftr)
    {
      hide WritesMiss, Held, Chains, Owned, Tiled, Coalesced, Tagged, AllLinked, Aligned, Guarded, OnlyLimbo, LeftBusy;
      NoWrites(l, Free, hdr, ftr);
      ReadRight(reg, hdr, ftr, l, he.ptr);
      var nextHeader := he.ptr + he.size;
      var nextSize := hdr[nextHeader].sizeFlags;
      merged := he;
      if nextSize < FLAG_ALLOCATED {
        merged := he.(size := he.size + nextSize + HFER_SIZE);
        ghost var k := HeapRemove(nextHeader + HEADER_SIZE, ex);
        AbsorbRight(reg, hdr, ftr, first, old(l), ex, he.ptr, k);
        l := Join(l, he.ptr);
      }
    }

    /** Join the detached block of `ext` with its free neighbours, found through their tags alone. */
    method HeapMerge(ext: Extent, ghost ex: Owner) returns (he: HeapEntry)
      requires Valid(ex) && OnlyLimbo(l, ext.ptr - HEADER_SIZE)
      requires ext.ptr - HEADER_SIZE in l.sizes && l.sizes[ext.ptr - HEADER_SIZE] == ext.size + HFER_SIZE
      modifies `hdr, `first, `entries, `l
      ensures Valid(ex) && OnlyLimbo(l, he.ptr) && l.owners.Keys == l.sizes.Keys
      ensures he.ptr in l.sizes && he.size == l.sizes[he.ptr] && LeftBusy(l, he.ptr) && RightBusy(l, he.ptr)
      ensures SameChains(old(l), l)
      ensures WritesMiss(old(l), Free, old(hdr), old(ftr), hdr, ftr)
    {
      hide Inv, Held, Chains, OnlyLimbo, LeftBusy, RightBusy, WritesMiss, Tiled, Owned;
      Basics(ex);
      he := HeapEntry(ext.ptr - HEADER_SIZE, ext.size + HFER_SIZE);
      he := MergeLeft(he, ex);
      ghost var l1, h1, f1 := l, hdr, ftr;
      SameIsKept(old(l), l1, Free);
      he := MergeRight(he, ex);
      WritesThen(old(l), l1, Free, old(hdr), old(ftr), h1, f1, hdr, ftr);
    }

    /** Merge the detached block of `ext` and put the result on the free list. */
    method GiveBack(ext: Extent, ghost ex: Owner)
      requires Valid(ex) && OnlyLimbo(l, ext.ptr - HEADER_SIZE)
      requires ext.ptr - HEADER_SIZE in l.sizes && l.sizes[ext.ptr - HEADER_SIZE] == ext.size + HFER_SIZE
      modifies `hdr, `ftr, `first, `entries, `l
      ensures Valid(ex) && NoLimbo(l) && Free in l.lists && l.lists[Free] != []
      ensures SameChains(old(l), l)
      ensures WritesMiss(old(l), Free, old(hdr), old(ftr), hdr, ftr)
    {
      hide WritesMiss;
      Basics(ex);
      var he := HeapMerge(ext, ex);
      ghost var l1, h1, f1 := l, hdr, ftr;
      SameIsKept(old(l), l1, Free);
      GiveHeld(l, he.ptr, Free);
      var _ := InsertHeapEntry(he, first, false, Free, ex);
      WritesThen(old(l), l1, Free, old(hdr), old(ftr), h1, f1, hdr, ftr);
      assert Chains(l) == Chains(old(l));
    }

    /** Give back the chain element `small`, which is one extent long and not the first of its chain. */
    method FreeExtent(small: int, ghost w: Owner, ghost k: int)
      requires Valid(Limbo) && NoLimbo(l) && w.Used? && w in l.lists && 0 < k < |l.lists[w]|
      requires small == At(l.lists[w], k) && small - HEADER_SIZE in l.sizes
      requires l.sizes[small - HEADER_SIZE] == reg.extentSize
      modifies this
      ensures Valid(Limbo) && NoLimbo(l) && l.lists[Free] != []
      ensures Chains(l) == Chains(old(l))[w := RemoveAt(old(l).lists[w], k)]
      ensures Held(l) == Held(old(l)) - {small - HEADER_SIZE}
      ensures sizeUsed == old(sizeUsed) - (reg.extentSize - HFER_SIZE)
      ensures WritesMiss(old(l), w, old(hdr), old(ftr), hdr, ftr)
    {
      hide Tiled, Owned, Coalesced, Tagged, AllLinked, Aligned, Guarded, Held, Chains, OnlyLimbo, NoLimbo, WritesMiss,
           OthersKept;
      var header := small - HEADER_SIZE;
      TakeHeld(l, w, k);
      TakenFrom(l, w, k);
      ghost var m := Take(l, w, k);
      TakeInv(reg, hdr, ftr, first, l, Limbo, w, k);
      assert hdr[header].prev == At(l.lists[w], k - 1);
      UnlinkWrites(reg, hdr, ftr, first, l, Limbo, w, k);
      TakeKept(l, w, k);
      Bypass(header);
      WritesAny(l, w, old(hdr), old(ftr), hdr, ftr);
      l := m;
      ghost var h1 := hdr;
      GiveBack(Extent(small, reg.extentSize - HFER_SIZE), Limbo);
      WritesAny(m, w, h1, old(ftr), hdr, ftr);
      WritesThen(old(l), m, w, old(hdr), old(ftr), h1, old(ftr), hdr, ftr);
      sizeUsed := sizeUsed - (reg.extentSize - HFER_SIZE);
    }

    /** Keep the first `allocSize` bytes of a popped block and put the rest back on the free list. */
    method SplitPopped(he: HeapEntry, allocSize: int) returns (kept: HeapEntry)
      requires Valid(Limbo) && OnlyLimbo(l, he.ptr) && he.ptr in l.sizes && he.size == l.sizes[he.ptr]
      requires l.owners.Keys == l.sizes.Keys && RightBusy(l, he.ptr)
      requires reg.extentSize <= allocSize && allocSize % reg.extentSize == 0
      requires he.size >= allocSize + reg.extentSize
      modifies `hdr, `ftr, `first, `entries, `l
      ensures Valid(Limbo) && OnlyLimbo(l, he.ptr) && l.owners.Keys == l.sizes.Keys
      ensures kept == HeapEntry(he.ptr, allocSize) && he.ptr in l.sizes && l.sizes[he.ptr] == allocSize
      ensures SameChains(old(l), l)
      ensures WritesMiss(old(l), Free, old(hdr), old(ftr), hdr, ftr)
    {
      hide Tiled, Owned, Coalesced, Tagged, AllLinked, Aligned, Guarded, Held, Chains, OnlyLimbo, RightBusy, LeftBusy,
           WritesMiss, OthersKept;
      NoWrites(l, Free, hdr, ftr);
      Basics(Limbo);
      IsLimbo(l, he.ptr);
      SplitInv(reg, hdr, ftr, first, l, Limbo, he.ptr, allocSize);
      SplitHeld(l, he.ptr, allocSize);
      SplitBordered(reg, l, he.ptr, allocSize);
      ghost var m := Split(l, he.ptr, allocSize);
      GiveHeld(m, he.ptr + allocSize, Free);
      RestGiven(m, he.ptr, he.ptr + allocSize);
      l := m;
      var rest := HeapEntry(he.ptr + allocSize, he.size - allocSize);
      var _ := InsertHeapEntry(rest, first, false, Free, Limbo);
      SameIsKept(old(l), m, Free);
      WritesThen(old(l), m, Free, old(hdr), old(ftr), old(hdr), old(ftr), hdr, ftr);
      kept := HeapEntry(he.ptr, allocSize);
    }

    /** Cut a popped block down to the request if at least one extent would be left over. */
    method FitPopped(he: HeapEntry, toAllocate: int) returns (kept: HeapEntry)
      requires Valid(Limbo) && OnlyLimbo(l, he.ptr) && he.ptr in l.sizes && he.size == l.sizes[he.ptr]
      requires l.owners.Keys == l.sizes.Keys && RightBusy(l, he.ptr) && 0 < toAllocate
      modifies `hdr, `ftr, `first, `entries, `l
      ensures Valid(Limbo) && OnlyLimbo(l, kept.ptr) && SameChains(old(l), l)
      ensures kept.ptr in l.sizes && kept.size == l.sizes[kept.ptr]
      ensures kept == HeapEntry(he.ptr, FitSize(reg.extentSize, he.size, toAllocate))
      ensures WithinRequest(reg, kept.ptr, kept.size, toAllocate)
      ensures kept.size == he.size ==> l == old(l)
      ensures WritesMiss(old(l), Free, old(hdr), old(ftr), hdr, ftr)
    {
      hide WritesMiss, RoundUp, Held, Chains, OnlyLimbo, RightBusy, Remainder, Tiled, Owned, Coalesced, Tagged,
           AllLinked, Aligned;
      var allocSize := RoundUp(toAllocate + HFER_SIZE, reg.extentSize);
      kept := he;
      if he.size >= allocSize + reg.extentSize {
        kept := SplitPopped(he, allocSize);
      } else {
        NotSplit(reg, l.sizes, he.ptr, allocSize);
        NoWrites(l, Free, hdr, ftr);
      }
      RemainderRange(reg);
    }

    /** Pop a free block, fit it to the request, and chain it. */
    method AllocOne(toAllocate: int, firstExtent: int, ghost w: Owner) returns (ok: bool, he: HeapEntry)
      requires Valid(Limbo) && NoLimbo(l) && w.Used? && w in l.lists && 0 < toAllocate
      requires firstExtent == At(l.lists[w], 0)
      modifies `hdr, `ftr, `first, `entries, `l
      ensures Valid(Limbo) && NoLimbo(l)
      ensures ok == (old(l).lists[Free] != [])
      ensures !ok ==> l == old(l)
      ensures ok ==> w in Chains(old(l)) && Chains(l) == Chains(old(l))[w := [he.ptr] + Chains(old(l))[w]]
      ensures ok ==> he.ptr !in Held(old(l)) && Held(l) == Held(old(l))[he.ptr := (he.size, w)]
      ensures ok ==> he.ptr in l.sizes && he.size == l.sizes[he.ptr]
      ensures ok ==> he.ptr == old(l).lists[Free][0] && he.ptr in old(l).sizes
                     && he.size == FitSize(reg.extentSize, old(l).sizes[he.ptr], toAllocate)
      ensures ok ==> WithinRequest(reg, he.ptr, he.size, toAllocate)
      ensures ok && he.size == old(l).sizes[he.ptr] ==> l == Give(Take(old(l), Free, 0), he.ptr, w)
      ensures WritesMiss(old(l), Free, old(hdr), old(ftr), hdr, ftr)
    {
      hide WritesMiss;
      Basics(Limbo);
      TakeHeldFirst(l);
      ChainsLookup(l, w);
      ok, he := PopHeapEntry();
      if !ok {
        return;
      }
      hide Held, Chains, OnlyLimbo, NoLimbo, RightBusy, WithinRequest, FitSize, OthersKept;
      ghost var l1, h1, f1 := l, hdr, ftr;
      he := FitPopped(he, toAllocate);
      SameIsKept(old(l), l1, Free);
      WritesThen(old(l), l1, Free, old(hdr), old(ftr), h1, f1, hdr, ftr);
      ghost var l2, h2, f2 := l, hdr, ftr;
      SameIsKept(old(l), l2, Free);
      ChainsLookup(l, w);
      ChainOne(l, he.ptr, w);
      hide Inv, Owned;
      var _ := InsertHeapEntry(he, firstExtent, true, w, Limbo);
      WritesThen(old(l), l2, Free, old(hdr), old(ftr), h2, f2, hdr, ftr);
    }

    /** One turn of the allocation loop: chain one block; if it more than covers the request
        and the chain has a one-extent block, give that one back. */
    method AllocStep(toAllocate: int, firstExtent: int, smallExtent: int, ghost w: Owner)
      returns (ok: bool, allocatedSize: int, newFirst: int, newSmall: int)
      requires Valid(Limbo) && NoLimbo(l) && w.Used? && w in Chains(l) && 0 < toAllocate
      requires firstExtent == At(Chains(l)[w], 0) && SmallOk(reg, l, w, smallExtent)
      modifies this
      ensures Valid(Limbo) && NoLimbo(l)
      ensures ok == (old(l).lists[Free] != [])
      ensures !ok ==> l == old(l) && newFirst == firstExtent && newSmall == smallExtent && sizeUsed == old(sizeUsed)
      ensures ok ==> old(l).lists[Free][0] in old(l).sizes
      ensures ok ==> allocatedSize > 0 && Stepped(reg, old(l), l, w, toAllocate, allocatedSize, newFirst, newSmall)
      ensures ok ==> Total(Payloads(l)) - sizeUsed == Total(Payloads(old(l))) - old(sizeUsed) + allocatedSize
      ensures ok && allocatedSize < toAllocate ==> FreeRoom(l) == FreeRoom(old(l)) - allocatedSize
      ensures ok && allocatedSize < toAllocate ==> l.sizes == old(l).sizes && l.lists[Free] == old(l).lists[Free][1..]
      ensures ok ==> w in Chains(l) && |Chains(l)[w]| <= |Chains(old(l))[w]| + 1
      ensures ok && |Chains(l)[w]| == |Chains(old(l))[w]| + 1 ==>
                Chained(old(l), l, w, old(l).lists[Free][0],
                        FitSize(reg.extentSize, old(l).sizes[old(l).lists[Free][0]], toAllocate))
      ensures ok && allocatedSize >= toAllocate ==> toAllocate <= FreeRoom(old(l))
      ensures ok ==> Turn(reg.extentSize, Turns(SizesOf(old(l), w), toAllocate, smallExtent != 0),
                             old(l).sizes[old(l).lists[Free][0]])
                        == Turns(SizesOf(l, w), if allocatedSize < toAllocate then toAllocate - allocatedSize else 0,
                                 newSmall != 0)
      ensures WritesMiss(old(l), w, old(hdr), old(ftr), hdr, ftr)
    {
      hide WritesMiss, OthersKept, Held, Chains, NoLimbo, SmallOk, FitSize, Turn, SizesOf, FreeRoom, WithinRequest,
           Stepped, Tiled, Owned,
           Tagged, AllLinked, Aligned, Coalesced;
      ChainsLookup(l, w);
      ghost var l0 := l;
      newFirst, newSmall, allocatedSize := firstExtent, smallExtent, 0;
      var he;
      ok, he := AllocOne(toAllocate, firstExtent, w);
      WritesAny(l0, w, old(hdr), old(ftr), hdr, ftr);
      if !ok {
        return;
      }
      ghost var l1, h1, f1 := l, hdr, ftr;
      ChainedKept(l0, l1, w, he.ptr, he.size);
      BlockRange(reg, l1.sizes, he.ptr);
      TurnRoom(reg, l0, l1, w, he.size, toAllocate);
      newFirst := he.ptr + HEADER_SIZE;
      if smallExtent == 0 && he.size == reg.extentSize {
        newSmall := newFirst;
      }
      ghost var k := SmallGrows(reg, l0, l1, w, he.ptr, he.size, smallExtent);
      allocatedSize := he.size - HFER_SIZE;
      if allocatedSize > toAllocate && allocatedSize - toAllocate >= reg.extentSize - HFER_SIZE && newSmall != 0 {
        SmallInLists(l1, reg, w, newSmall, k);
        FreeExtent(newSmall, w, k);
        WritesThen(l0, l1, w, old(hdr), old(ftr), h1, f1, hdr, ftr);
        TurnGivesBack(reg, l0, l1, l, w, he.ptr, l0.sizes[he.ptr], toAllocate, smallExtent, newSmall, k);
        StepGivesBack(reg, l0, l1, l, w, he.ptr, he.size, toAllocate, newSmall, k);
      } else {
        TurnKeeps(reg, l0, l1, w, he.ptr, l0.sizes[he.ptr], toAllocate, smallExtent);
        StepKeeps(reg, l0, l1, w, he.ptr, he.size, toAllocate, newSmall);
      }
    }

    /** Chain blocks for `size` more bytes of the value `w`; returns how many of them were covered. */
    method Alloc(size: int, firstExtent: int, smallExtent: int, ghost w: Owner)
      returns (got: int, newFirst: int, newSmall: int, ghost popped: seq<int>)
      requires Valid(Limbo) && NoLimbo(l) && w.Used? && w in Chains(l) && 0 < size
      requires firstExtent == At(Chains(l)[w], 0) && SmallOk(reg, l, w, smallExtent)
      modifies this
      ensures Valid(Limbo) && NoLimbo(l) && w in Chains(l) && newFirst == At(Chains(l)[w], 0)
      ensures OthersKept(old(l), l, w) && (got == 0) == (old(l).lists[Free] == [])
      ensures 0 <= got && got == if FreeRoom(old(l)) < size then FreeRoom(old(l)) else size
      ensures got < size ==> l.lists[Free] == [] && SmallOk(reg, l, w, newSmall)
                                   && Capacity(l, w) == Capacity(old(l), w) + got
      ensures got == size ==> Filled(reg, l, w, Capacity(old(l), w) + size, newSmall)
      ensures |popped| <= |old(l).lists[Free]| && (old(l).lists[Free] != [] ==> popped != [])
      ensures forall i | 0 <= i < |popped| ::
                old(l).lists[Free][i] in old(l).sizes && popped[i] == old(l).sizes[old(l).lists[Free][i]]
      ensures |popped| == 1 && |Chains(l)[w]| == |Chains(old(l))[w]| + 1 ==>
                Chained(old(l), l, w, old(l).lists[Free][0], FitSize(reg.extentSize, popped[0], size))
      ensures AllTurns(reg.extentSize, Turns(SizesOf(old(l), w), size, smallExtent != 0), popped)
              == Turns(SizesOf(l, w), size - got, newSmall != 0)
      ensures Total(Payloads(l)) - sizeUsed == Total(Payloads(old(l))) - old(sizeUsed)
      ensures WritesMiss(old(l), w, old(hdr), old(ftr), hdr, ftr)
    {
      hide WritesMiss, Tiled, Owned, Inv, NoLimbo, Progress, Stepped, Turn, AllTurns, SizesOf, SmallOk, Filled,
           Capacity, OthersKept, Chains,
           Payloads, Total, At, FreeRoom, Chained, FitSize;
      Basics(Limbo);
      newFirst, newSmall, popped := firstExtent, smallExtent, [];
      ghost var start := Turns(SizesOf(l, w), size, smallExtent != 0);
      TurnsNone(reg.extentSize, start);
      NoWrites(l, w, hdr, ftr);
      var toAllocate, total := size, 0;
      assert Progress(reg, l, l, w, size, size, firstExtent, smallExtent) by {
        ProgressStart(reg, l, w, size, firstExtent, smallExtent);
      }
      while toAllocate > 0
        invariant Valid(Limbo) && NoLimbo(l) && 0 <= toAllocate <= size
        invariant Progress(reg, old(l), l, w, size, toAllocate, newFirst, newSmall)
        invariant if toAllocate > 0 then FreeRoom(l) == FreeRoom(old(l)) - (size - toAllocate) else size <= FreeRoom(old(l))
        invariant AllTurns(reg.extentSize, start, popped) == Turns(SizesOf(l, w), toAllocate, newSmall != 0)
        invariant if toAllocate == size then l == old(l) && popped == [] else old(l).lists[Free] != [] && popped != []
        invariant |popped| <= |old(l).lists[Free]|
        invariant Free in l.lists
        invariant toAllocate > 0 ==> l.sizes == old(l).sizes && l.lists[Free] == old(l).lists[Free][|popped|..]
        invariant forall i | 0 <= i < |popped| ::
                    old(l).lists[Free][i] in old(l).sizes && popped[i] == old(l).sizes[old(l).lists[Free][i]]
        invariant w in Chains(l)
        invariant |popped| == 1 && |Chains(l)[w]| == |Chains(old(l))[w]| + 1 ==>
                    Chained(old(l), l, w, old(l).lists[Free][0], FitSize(reg.extentSize, popped[0], size))
        invariant Total(Payloads(l)) - sizeUsed == Total(Payloads(old(l))) - old(sizeUsed) + total
        invariant WritesMiss(old(l), w, old(hdr), old(ftr), hdr, ftr)
      {
        ghost var l1, first1, small1, h1, f1 := l, newFirst, newSmall, hdr, ftr;
        Basics(Limbo);
        ProgressMid(reg, old(l), l, w, size, toAllocate, newFirst, newSmall);
        var ok, allocatedSize;
        ok, allocatedSize, newFirst, newSmall := AllocStep(toAllocate, newFirst, newSmall, w);
        WritesThen(old(l), l1, w, old(hdr), old(ftr), h1, f1, hdr, ftr);
        if !ok {
          NothingFree();
          break;
        }
        ghost var block := l1.sizes[l1.lists[Free][0]];
        Basics(Limbo);
        TurnsSnoc(reg.extentSize, start, popped, block);
        popped := popped + [block];
        ProgressStep(reg, old(l), l1, l, w, size, toAllocate, allocatedSize, first1, small1, newFirst, newSmall);
        total := total + allocatedSize;
        toAllocate := toAllocate - (if allocatedSize < toAllocate then allocatedSize else toAllocate);
      }
      sizeUsed := sizeUsed + total;
      got := size - toAllocate;
      ProgressMid(reg, old(l), l, w, size, toAllocate, newFirst, newSmall);
    }

    /** Give back the first extent of a chain that is being torn down. */
    method FreeFirst(ptr: int, ghost w: Owner) returns (size: int, next: int)
      requires Valid(w) && NoLimbo(l) && w.Used? && w in Chains(l) && Chains(l)[w] != [] && ptr == At(Chains(l)[w], 0)
      modifies `hdr, `ftr, `first, `entries, `l
      ensures Valid(w) && NoLimbo(l) && Free in l.lists && l.lists[Free] != []
      ensures w in Chains(l) && Chains(l)[w] == Chains(old(l))[w][1..] && next == At(Chains(l)[w], 0)
      ensures OthersKept(old(l), l, w)
      ensures Total(Payloads(l)) == Total(Payloads(old(l))) - size
      ensures WritesMiss(old(l), w, old(hdr), old(ftr), hdr, ftr)
    {
      NoWrites(l, w, hdr, ftr);
      hide WritesMiss, Owned, Held, Chains, NoLimbo, OthersKept, Tiled, Tagged, AllLinked, Aligned, Coalesced,
           Payloads, OnlyLimbo;
      ChainFront(reg, hdr, ftr, first, l, w);
      size := hdr[ptr - HEADER_SIZE].sizeFlags % FLAG_ALLOCATED;
      next := hdr[ptr - HEADER_SIZE].next;
      TakeKept(l, w, 0);
      l := Take(l, w, 0);
      hide Inv;
      ghost var l1 := l;
      GiveBack(Extent(ptr, size), w);
      WritesAny(l1, w, old(hdr), old(ftr), hdr, ftr);
      WritesThen(old(l), l1, w, old(hdr), old(ftr), old(hdr), old(ftr), hdr, ftr);
      ChainShrinks(old(l), l, w, 0);
    }

    /** Give back the whole chain of the value `w`, whose first element is `firstExtent`. */
    method FreeChain(firstExtent: int, ghost w: Owner)
      requires Valid(Limbo) && NoLimbo(l) && w.Used? && w in Chains(l)
      requires firstExtent == At(Chains(l)[w], 0)
      modifies this
      ensures Valid(Limbo) && NoLimbo(l)
      ensures Chains(l) == Chains(old(l)) - {w} && OthersKept(old(l), l, w)
      ensures Chains(old(l))[w] == [] ==> l.lists[Free] == old(l).lists[Free]
      ensures Chains(old(l))[w] != [] ==> l.lists[Free] != []
      ensures Total(Payloads(l)) - sizeUsed == Total(Payloads(old(l))) - old(sizeUsed)
      ensures WritesMiss(old(l), w, old(hdr), old(ftr), hdr, ftr)
    {
      hide WritesMiss;
      Basics(Limbo);
      NoWrites(l, w, hdr, ftr);
      PointersNotNull(reg, l, w);
      TearDownInv(reg, hdr, ftr, first, l, w);
      OthersRefl(l, w);
      var freed := 0;
      var ptr := firstExtent;
      while ptr != 0
        invariant Valid(w) && NoLimbo(l) && w in Chains(l) && ptr == At(Chains(l)[w], 0)
        invariant ptr == 0 ==> Chains(l)[w] == []
        invariant OthersKept(old(l), l, w) && Free in l.lists
        invariant if l == old(l) then true else l.lists[Free] != [] && Chains(old(l))[w] != []
        invariant Total(Payloads(l)) == Total(Payloads(old(l))) - freed && sizeUsed == old(sizeUsed)
        invariant WritesMiss(old(l), w, old(hdr), old(ftr), hdr, ftr)
        decreases |Chains(l)[w]|
      {
        hide Held, Chains, NoLimbo, OthersKept, Inv, Payloads;
        ghost var l1, h1, f1 := l, hdr, ftr;
        var size, next := FreeFirst(ptr, w);
        WritesThen(old(l), l1, w, old(hdr), old(ftr), h1, f1, hdr, ftr);
        OthersTrans(old(l), l1, l, w);
        NotNull(reg, hdr, ftr, first, l, w);
        freed := freed + size;
        ptr := next;
      }
      sizeUsed := sizeUsed - freed;
      ghost var l2 := l;
      hide Held, Chains, NoLimbo, OthersKept, Inv;
      CloseInv(reg, hdr, ftr, first, l, w);
      l := l.(lists := l.lists - {w});
      OthersTrans(old(l), l2, l, w);
      ClosedChains(old(l), l2, l, w);
    }

    /** What the header says of the `i`-th extent of a chain: its payload size and the next extent. */
    method ReadExtent(ptr: int, ghost w: Owner, ghost i: int) returns (size: int, next: int)
      requires Valid(Limbo) && w.Used? && w in Chains(l) && 0 <= i < |Chains(l)[w]| && ptr == At(Chains(l)[w], i)
      ensures Extent(ptr, size) == Exts(l, w)[i] && next == At(Chains(l)[w], i + 1)
    {
      hide Inv, Exts, At, Chains;
      ReadChain(reg, hdr, ftr, first, l, w, i);
      size := hdr[ptr - HEADER_SIZE].sizeFlags % FLAG_ALLOCATED;
      next := hdr[ptr - HEADER_SIZE].next;
    }
  }
}
