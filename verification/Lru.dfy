/** The buffered LRU policy run serially: used entries wait in the ring and move to the tail later. */
module Lru {
  import opened Sequences
  import opened LruSpec
  import opened Q = TailQueue
  import R = RingBuffer

  /** Entries are locked (their cell is NULL) exactly while they are buffered or held. */
  ghost predicate Consistent(order: seq<int>, ring: seq<int>, held: seq<int>, cell: map<int, int>) {
    && Distinct(order) && Distinct(ring + held)
    && (forall x | x in ring + held :: x in order)
    && (forall x | x in order :: 0 < x && x in cell && cell[x] == if x in ring + held then 0 else x)
    && (forall x | x in cell && x !in order :: cell[x] == 0)
  }

  lemma ConsistentShape(order: seq<int>, ring: seq<int>, held: seq<int>, cell: map<int, int>)
    requires Consistent(order, ring, held, cell)
    ensures WellFormed(Buffered(order, ring)) && 0 !in ring && 0 !in order
  {
    assert forall i | 0 <= i < |ring| :: (ring + held)[i] == ring[i];
    assert forall x | x in ring :: x in ring + held;
  }

  lemma RingHead(order: seq<int>, ring: seq<int>, held: seq<int>, cell: map<int, int>)
    requires Consistent(order, ring, held, cell) && ring != []
    ensures Distinct(order) && Distinct(ring[1..] + held)
    ensures ring[0] in order && ring[0] !in ring[1..] + held && ring[0] in ring + held
    ensures forall x :: x in ring + held <==> x == ring[0] || x in ring[1..] + held
  {
    var s, t := ring + held, ring[1..] + held;
    assert s == [ring[0]] + t && s[0] == ring[0] && s[0] in s;
    assert s[0] in order;
    assert forall i | 0 <= i < |t| :: t[i] == s[i + 1];
  }

  /** The oldest buffered entry goes to the tail and is unlocked. */
  lemma FlushedConsistent(order: seq<int>, ring: seq<int>, held: seq<int>, cell: map<int, int>)
    requires Consistent(order, ring, held, cell) && ring != []
    ensures Consistent(Without(order, ring[0]) + [ring[0]], ring[1..], held, cell[ring[0] := ring[0]])
    ensures ring[0] in order && ring[0] in cell
  {
    var c := ring[0];
    RingHead(order, ring, held, cell);
    WithoutMembers(order, c);
    assert forall x :: x in Without(order, c) + [c] <==> x in order;
  }

  lemma HoldOne(order: seq<int>, ring: seq<int>, cell: map<int, int>, e: int)
    requires Consistent(order, ring, [], cell) && e in cell && cell[e] != 0
    ensures e in order && cell[e] == e && e !in ring && 0 < e && Consistent(order, ring, [e], cell[e := 0])
  {
    assert ring + [] == ring;
  }

  lemma BufferOne(order: seq<int>, ring: seq<int>, cell: map<int, int>, e: int)
    requires Consistent(order, ring, [e], cell)
    ensures Consistent(order, ring + [e], [], cell)
  {
    assert (ring + [e]) + [] == ring + [e];
  }

  lemma AddOne(order: seq<int>, ring: seq<int>, cell: map<int, int>, e: int)
    requires Consistent(order, ring, [], cell) && e !in order && 0 < e
    ensures Consistent(order + [e], ring, [], cell[e := e])
  {
    assert ring + [] == ring;
    assert e !in ring;
  }

  lemma DropOne(order: seq<int>, ring: seq<int>, cell: map<int, int>, e: int)
    requires Consistent(order, ring, [], cell) && e in cell && cell[e] != 0
    ensures e in order && e !in ring && Consistent(Without(order, e), ring, [], cell[e := 0])
  {
    assert ring + [] == ring && e !in ring;
    WithoutMembers(order, e);
  }

  /** Of a listed entry, the cell tells whether it is buffered; others have none. */
  lemma CellTells(order: seq<int>, ring: seq<int>, cell: map<int, int>, e: int)
    requires Consistent(order, ring, [], cell) && e in cell
    ensures cell[e] == 0 <==> e !in order || e in ring
    ensures cell[e] == 0 || cell[e] == e
    ensures e in ring ==> e in order
  {
    assert ring + [] == ring;
  }

  /** Cells of entries that are not listed may come and go. */
  lemma CellsMayChange(order: seq<int>, ring: seq<int>, cell: map<int, int>, e: int)
    requires Consistent(order, ring, [], cell) && e !in order
    ensures Consistent(order, ring, [], cell - {e}) && Consistent(order, ring, [], cell[e := 0])
  {
  }

  // ---------- the policy

  class Lru {
    const q: Q.TailQueue
    const ring: R.RingBuffer

    /** Each entry's `p_entry` field: the entry itself, or NULL while it is locked. */
    var cell: map<int, int>

    ghost predicate Valid(held: seq<int>)
      reads this, q, ring, ring.data
    {
      && q.Valid() && ring.Valid() && ring.data.Length == R.LEN_RING_BUF
      && Consistent(q.order, ring.contents, held, cell)
    }

    ghost function State(): Buffered<int>
      reads q, ring
    {
      Buffered(q.order, ring.contents)
    }

    constructor ()
      ensures Valid([]) && State() == Buffered([], []) && cell == map[]
      ensures fresh(q) && fresh(ring) && fresh(ring.data)
    {
      q := new Q.TailQueue();
      ring := new R.RingBuffer(R.LEN_RING_BUF);
      cell := map[];
    }

    lemma Shape(held: seq<int>)
      requires Valid(held)
      ensures WellFormed(State()) && |ring.contents| <= R.LEN_RING_BUF && 0 !in ring.contents && 0 !in q.order
    {
      ConsistentShape(q.order, ring.contents, held, cell);
    }

    /** One turn of the flush: the oldest buffered entry goes to the tail. */
    method DequeueOne(ghost held: seq<int>) returns (ok: bool)
      requires Valid(held)
      modifies this, q, ring, ring.data
      ensures Valid(held) && ok == (old(ring.contents) != []) && cell.Keys == old(cell.Keys)
      ensures State() == if !ok then old(State())
                         else var c := old(ring.contents)[0];
                              Buffered(Without(old(q.order), c) + [c], old(ring.contents)[1..])
    {
      hide Consistent, Q.TailQueue.Valid, R.RingBuffer.Valid;
      Shape(held);
      var e := ring.TryDequeue();
      if e == 0 {
        return false;
      }
      FlushedConsistent(q.order, old(ring.contents), held, cell);
      q.MoveToTail(e);
      cell := cell[e := e];
      ok := true;
    }

    /** Move all buffered entries to the tail and unlock them. */
    method DequeueAll(ghost held: seq<int>)
      requires Valid(held)
      modifies this, q, ring, ring.data
      ensures Valid(held) && State() == FlushAll(old(State())) && cell.Keys == old(cell.Keys)
    {
      hide Consistent, Q.TailQueue.Valid, R.RingBuffer.Valid, Minus;
      Shape(held);
      var counter := 0;
      while counter < R.LEN_RING_BUF
        invariant Valid(held) && 0 <= counter && counter + |ring.contents| <= R.LEN_RING_BUF
        invariant Order(State()) == old(Order(State())) && cell.Keys == old(cell.Keys)
      {
        Shape(held);
        ghost var before := State();
        var ok := DequeueOne(held);
        if !ok {
          break;
        }
        FlushOne(before);
        counter := counter + 1;
      }
      MinusNothing(q.order);
      assert q.order + [] == q.order;
    }

    /** A new entry's `p_entry` field starts out as NULL. */
    method NewCell(e: int)
      requires Valid([]) && e !in q.order
      modifies `cell
      ensures Valid([]) && cell == old(cell)[e := 0]
    {
      CellsMayChange(q.order, ring.contents, cell, e);
      cell := cell[e := 0];
    }

    /** A freed entry's `p_entry` field is gone. */
    method ForgetCell(e: int)
      requires Valid([]) && e !in q.order
      modifies `cell
      ensures Valid([]) && cell == old(cell) - {e}
    {
      CellsMayChange(q.order, ring.contents, cell, e);
      cell := cell - {e};
    }

    /** Append a new entry, whose cell has been NULL so far. */
    method Insert(e: int)
      requires Valid([]) && e !in q.order && 0 < e && e in cell && cell[e] == 0
      modifies this, q
      ensures Valid([]) && cell == old(cell)[e := e] && State() == Add(old(State()), e)
    {
      hide Consistent, Q.TailQueue.Valid, R.RingBuffer.Valid;
      AddOne(q.order, ring.contents, cell, e);
      cell := cell[e := e];
      q.InsertTail(e);
    }

    /** Mark an entry as used: a no-op if it is locked, else it joins the ring. */
    method Use(e: int)
      requires Valid([]) && e in cell
      modifies this, q, ring, ring.data
      ensures Valid([]) && cell.Keys == old(cell.Keys)
      ensures State() == if e in old(q.order) then Touch(old(State()), e, R.LEN_RING_BUF) else old(State())
    {
      hide Consistent, Q.TailQueue.Valid, R.RingBuffer.Valid;
      CellTells(q.order, ring.contents, cell, e);
      if cell[e] == 0 {
        return;
      }
      Shape([]);
      HoldOne(q.order, ring.contents, cell, e);
      cell := cell[e := 0];
      var ok := Buffer(e);
      while !ok
        invariant cell.Keys == old(cell.Keys)
        invariant !ok ==> Valid([e]) && State() == old(State()) && |ring.contents| == R.LEN_RING_BUF
        invariant ok ==> Valid([]) && State() == Touch(old(State()), e, R.LEN_RING_BUF)
        decreases !ok
      {
        DequeueAll([e]);
        ok := Buffer(e);
        assert [] + [e] == [e];
      }
    }

    /** Try to put the locked entry into the ring. */
    method Buffer(e: int) returns (ok: bool)
      requires Valid([e]) && 0 < e
      modifies ring, ring.data
      ensures ok == (|old(ring.contents)| < R.LEN_RING_BUF)
      ensures ring.contents == if ok then old(ring.contents) + [e] else old(ring.contents)
      ensures ok ==> Valid([])
      ensures !ok ==> Valid([e]) && |ring.contents| == R.LEN_RING_BUF
    {
      hide Consistent, Q.TailQueue.Valid, R.RingBuffer.Valid;
      Shape([e]);
      ok := ring.TryEnqueue(e);
      if ok {
        BufferOne(q.order, old(ring.contents), cell, e);
      }
    }

    lemma FirstInQueue()
      requires Valid([])
      ensures if q.first == 0 then q.order == [] && ring.contents == []
              else q.order != [] && q.first == q.order[0] && q.first in q.order && q.first in cell
    {
      ConsistentShape(q.order, ring.contents, [], cell);
      assert ring.contents == [] || ring.contents[0] in ring.contents;
    }

    /** Evict the least recently used entry; fails exactly when there is none. The ring is flushed exactly when the head of
        the list is in it. */
    method Evict() returns (e: int)
      requires Valid([])
      modifies this, q, ring, ring.data
      ensures Valid([]) && cell.Keys == old(cell.Keys) && State() == DropOldest(old(State()))
      ensures e == 0 <==> old(q.order) == []
      ensures e != 0 ==> e == Order(old(State()))[0]
    {
      hide Consistent, Q.TailQueue.Valid, R.RingBuffer.Valid, Minus;
      FirstInQueue();
      if q.first == 0 {
        return 0;
      }
      e := q.first;
      Shape([]);
      DropOldestKeeps(State());
      CellTells(q.order, ring.contents, cell, e);
      if cell[e] != e {
        DequeueAll([]);
        FirstInQueue();
        e := q.first;
        CellTells(q.order, ring.contents, cell, e);
      }
      DropOne(q.order, ring.contents, cell, e);
      Shape([]);
      WithoutAt(q.order, e, 0);
      cell := cell[e := 0];
      q.Remove(e);
    }

    /** Evict a given entry; fails exactly when it is not on the list. The ring is flushed exactly when the entry is in it,
        or is not on the list. */
    method EvictEntry(e: int) returns (ok: bool)
      requires Valid([]) && e in cell
      modifies this, q, ring, ring.data
      ensures Valid([]) && cell.Keys == old(cell.Keys)
      ensures ok <==> e in old(q.order)
      ensures State() == if ok then Drop(old(State()), e) else FlushAll(old(State()))
    {
      hide Consistent, Q.TailQueue.Valid, R.RingBuffer.Valid, Minus;
      FirstInQueue();
      if q.first == 0 {
        MinusNothing(q.order);
        return false;
      }
      Shape([]);
      OrderFacts(State());
      CellTells(q.order, ring.contents, cell, e);
      if cell[e] == 0 {
        DequeueAll([]);
        CellTells(q.order, ring.contents, cell, e);
        if cell[e] == 0 {
          return false;
        }
      }
      DropOne(q.order, ring.contents, cell, e);
      cell := cell[e := 0];
      q.Remove(e);
      ok := true;
    }
  }
}
