/** The tail queue macros: a doubly linked list whose back pointers are addresses of forward pointers. */
module TailQueue {
  import opened Sequences

  /** Where a forward pointer lives: in the head, or in an element. */
  datatype Place = HeadFirst | NextOf(id: int)

  function At(s: seq<int>, k: int): int {
    if 0 <= k < |s| then s[k] else 0
  }

  function PlaceBefore(s: seq<int>, k: int): Place {
    if 0 < k <= |s| then NextOf(s[k - 1]) else HeadFirst
  }

  ghost predicate LinkAt(next: map<int, int>, prev: map<int, Place>, s: seq<int>, k: int)
    requires 0 <= k < |s|
  {
    && s[k] in next && next[s[k]] == At(s, k + 1)
    && s[k] in prev && prev[s[k]] == PlaceBefore(s, k)
  }

  /** The pointers spell out the sequence `s`. */
  ghost predicate Spells(first: int, last: Place, next: map<int, int>, prev: map<int, Place>, s: seq<int>) {
    && Distinct(s) && (forall k | 0 <= k < |s| :: 0 < s[k])
    && first == At(s, 0) && last == PlaceBefore(s, |s|)
    && forall k | 0 <= k < |s| :: LinkAt(next, prev, s, k)
  }

  // ---------- the pointer operations

  lemma AppendSpells(first: int, last: Place, next: map<int, int>, prev: map<int, Place>, s: seq<int>, e: int)
    requires Spells(first, last, next, prev, s) && e !in s && 0 < e
    ensures var n0, p := next[e := 0], prev[e := last];
            var n := if last.NextOf? then n0[last.id := e] else n0;
            var f := if last.HeadFirst? then e else first;
            Spells(f, NextOf(e), n, p, s + [e])
  {
    var n0, p := next[e := 0], prev[e := last];
    var n := if last.NextOf? then n0[last.id := e] else n0;
    var t := s + [e];
    forall k | 0 <= k < |t| ensures LinkAt(n, p, t, k) {
      if k < |s| {
        assert LinkAt(next, prev, s, k);
      }
    }
  }

  lemma RemoveSpells(first: int, last: Place, next: map<int, int>, prev: map<int, Place>, s: seq<int>, k: int)
    requires Spells(first, last, next, prev, s) && 0 <= k < |s|
    ensures s[k] in next && s[k] in prev
    ensures var e := s[k];
            var p := if next[e] != 0 then prev[next[e] := prev[e]] else prev;
            var l := if next[e] != 0 then last else prev[e];
            var n := if prev[e].NextOf? then next[prev[e].id := next[e]] else next;
            var f := if prev[e].HeadFirst? then next[e] else first;
            Spells(f, l, n, p, s[..k] + s[k + 1..])
  {
    var e := s[k];
    assert LinkAt(next, prev, s, k);
    var p := if next[e] != 0 then prev[next[e] := prev[e]] else prev;
    var n := if prev[e].NextOf? then next[prev[e].id := next[e]] else next;
    var t := s[..k] + s[k + 1..];
    forall i | 0 <= i < |t| ensures t[i] == s[if i < k then i else i + 1] {}
    forall i | 0 <= i < |t| ensures LinkAt(n, p, t, i) {
      var j := if i < k then i else i + 1;
      assert LinkAt(next, prev, s, j);
    }
  }

  lemma LastSpells(first: int, last: Place, next: map<int, int>, prev: map<int, Place>, s: seq<int>, k: int)
    requires Spells(first, last, next, prev, s) && 0 <= k < |s|
    ensures s[k] in next && s[k] in prev && 0 < s[k] && s[k] !in Without(s, s[k])
    ensures Without(s, s[k]) == s[..k] + s[k + 1..]
    ensures next[s[k]] == 0 ==> s == Without(s, s[k]) + [s[k]]
  {
    assert LinkAt(next, prev, s, k);
    WithoutAt(s, s[k], k);
    WithoutMembers(s, s[k]);
  }

  class TailQueue {
    var first: int
    var last: Place
    var next: map<int, int>
    var prev: map<int, Place>
    ghost var order: seq<int>

    ghost predicate Valid()
      reads this
    {
      Spells(first, last, next, prev, order)
    }

    constructor ()
      ensures Valid() && order == []
    {
      first, last, next, prev, order := 0, HeadFirst, map[], map[], [];
    }

    /** Store through the address of a forward pointer. */
    method Write(p: Place, e: int)
      modifies `first, `next
      ensures first == if p.HeadFirst? then e else old(first)
      ensures next == if p.NextOf? then old(next)[p.id := e] else old(next)
    {
      if p.HeadFirst? {
        first := e;
      } else {
        next := next[p.id := e];
      }
    }

    method InsertTail(e: int)
      requires Valid() && e !in order && 0 < e
      modifies this
      ensures Valid() && order == old(order) + [e]
    {
      hide Spells;
      AppendSpells(first, last, next, prev, order, e);
      next := next[e := 0];
      prev := prev[e := last];
      Write(last, e);
      last := NextOf(e);
      order := order + [e];
    }

    method Remove(e: int)
      requires Valid() && e in order
      modifies this
      ensures Valid() && order == Without(old(order), e)
    {
      ghost var k :| 0 <= k < |order| && order[k] == e;
      RemoveSpells(first, last, next, prev, order, k);
      WithoutAt(order, e, k);
      hide Spells;
      ghost var n0, p0 := next, prev;
      var eNext, ePrev := next[e], prev[e];
      if eNext != 0 {
        prev := prev[eNext := ePrev];
      } else {
        last := ePrev;
      }
      Write(ePrev, eNext);
      order := Without(order, e);
    }

    /** The memory of a new element is zeroed. */
    method NewElement(e: int)
      requires Valid() && e !in order
      modifies `next
      ensures Valid() && order == old(order) && e in next && next[e] == 0
    {
      next := next[e := 0];
      forall k | 0 <= k < |order| ensures LinkAt(next, prev, order, k) { assert LinkAt(old(next), prev, order, k); }
    }

    /** Nothing to do for the last element, nor for one that is new and not linked yet; otherwise unlink the element and
        append it. */
    method MoveToTail(e: int)
      requires Valid() && (e in order || (e in next && next[e] == 0))
      modifies this
      ensures Valid() && order == if e in old(order) then Without(old(order), e) + [e] else old(order)
      ensures e !in old(order) ==> unchanged(this)
    {
      hide Spells, Without, LinkAt;
      ghost var k := 0;
      if e in order {
        k :| 0 <= k < |order| && order[k] == e;
        LastSpells(first, last, next, prev, order, k);
      }
      if next[e] == 0 {
        return;
      }
      RemoveSpells(first, last, next, prev, order, k);
      var eNext, ePrev := next[e], prev[e];
      prev := prev[eNext := ePrev];
      Write(ePrev, eNext);
      order := Without(order, e);
      InsertTail(e);
    }
  }
}
