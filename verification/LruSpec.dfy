/** What the buffered LRU policy promises: a list, and a queue of used entries that wait to be moved to its tail. */
module LruSpec {
  import opened Sequences

  /** The list in order, and the entries in the ring, all of which are also on the list. */
  datatype Buffered<T> = Buffered(list: seq<T>, ring: seq<T>)

  /** The elements of `s` that are not in `buf`, in order. */
  function Minus<T(==)>(s: seq<T>, buf: seq<T>): seq<T> {
    if s == [] then [] else if s[0] in buf then Minus(s[1..], buf) else [s[0]] + Minus(s[1..], buf)
  }

  /** The entries, least recently used first. */
  function Order<T(==)>(b: Buffered<T>): seq<T> {
    Minus(b.list, b.ring) + b.ring
  }

  /** The ring is emptied: its entries go to the tail, oldest first. */
  function FlushAll<T(==)>(b: Buffered<T>): Buffered<T> {
    Buffered(Order(b), [])
  }

  function Add<T>(b: Buffered<T>, x: T): Buffered<T> {
    Buffered(b.list + [x], b.ring)
  }

  /** A use: nothing for an entry in the ring, which has room for `len`; else it joins the ring, flushed before if full. */
  function Touch<T(==)>(b: Buffered<T>, x: T, len: nat): Buffered<T> {
    if x in b.ring then b
    else if |b.ring| < len then b.(ring := b.ring + [x])
    else FlushAll(b).(ring := [x])
  }

  /** The ring is flushed before an entry in it is taken, and only then. */
  function Settle<T(==)>(b: Buffered<T>, x: T): Buffered<T> {
    if x in b.ring then FlushAll(b) else b
  }

  function Drop<T(==)>(b: Buffered<T>, x: T): Buffered<T> {
    var c := Settle(b, x);
    c.(list := Without(c.list, x))
  }

  /** What the list begins with, once its head is not in the ring. */
  function Oldest<T(==)>(b: Buffered<T>): (c: Buffered<T>)
    requires b.list != []
  {
    Settle(b, b.list[0])
  }

  function DropOldest<T(==)>(b: Buffered<T>): Buffered<T> {
    if b.list == [] then b
    else
      var c := Oldest(b);
      if c.list == [] then c else c.(list := c.list[1..])
  }

  ghost predicate WellFormed<T>(b: Buffered<T>) {
    Distinct(b.list) && Distinct(b.ring) && forall x | x in b.ring :: x in b.list
  }

  // ---------- leaving out

  lemma {:induction false} MinusSnoc<T>(s: seq<T>, e: T, buf: seq<T>)
    ensures Minus(s + [e], buf) == Minus(s, buf) + (if e in buf then [] else [e])
  {
    var t := s + [e];
    if s == [] {
      assert t[1..] == [];
    } else {
      MinusSnoc(s[1..], e, buf);
      assert t[1..] == s[1..] + [e] && t[0] == s[0];
    }
  }

  lemma {:induction false} MinusSame<T>(s: seq<T>, a: seq<T>, b: seq<T>)
    requires forall x | x in s :: x in a <==> x in b
    ensures Minus(s, a) == Minus(s, b)
  {
    if s != [] {
      var h := s[0];
      assert h in s && (h in a <==> h in b);
      assert forall x | x in s[1..] :: x in s;
      MinusSame(s[1..], a, b);
    }
  }

  lemma {:induction false} MinusNothing<T>(s: seq<T>)
    ensures Minus(s, []) == s
  {
    if s != [] {
      MinusNothing(s[1..]);
    }
  }

  /** Taking out an element that is hidden anyway changes nothing. */
  lemma {:induction false} MinusHidden<T>(s: seq<T>, e: T, buf: seq<T>)
    requires e in buf
    ensures Minus(Without(s, e), buf) == Minus(s, buf)
  {
    if s != [] && s[0] != e {
      MinusHidden(s[1..], e, buf);
      assert ([s[0]] + Without(s[1..], e))[1..] == Without(s[1..], e);
    }
  }

  /** Hiding one more element is the same as taking it out. */
  lemma {:induction false} MinusMore<T>(s: seq<T>, e: T, buf: seq<T>)
    requires Distinct(s)
    ensures Minus(s, buf + [e]) == Without(Minus(s, buf), e)
  {
    if s != [] {
      assert s[0] in buf + [e] <==> s[0] in buf || s[0] == e;
      MinusMore(s[1..], e, buf);
      if s[0] == e {
        assert e !in s[1..];
        MinusKeeps(s[1..], buf);
        MinusSame(s[1..], buf + [e], buf);
        WithoutAbsent(Minus(s[1..], buf), e);
      }
      if s[0] !in buf {
        assert ([s[0]] + Minus(s[1..], buf))[1..] == Minus(s[1..], buf);
      }
    }
  }

  lemma {:induction false} WithoutAbsent<T>(s: seq<T>, e: T)
    requires e !in s
    ensures Without(s, e) == s
  {
    if s != [] {
      assert s[0] in s && s == [s[0]] + s[1..];
      WithoutAbsent(s[1..], e);
    }
  }

  lemma {:induction false} MinusKeeps<T>(s: seq<T>, buf: seq<T>)
    ensures forall x :: x in Minus(s, buf) <==> x in s && x !in buf
  {
    if s != [] {
      MinusKeeps(s[1..], buf);
      assert s == [s[0]] + s[1..];
    }
  }

  lemma {:induction false} MinusDistinct<T>(s: seq<T>, buf: seq<T>)
    requires Distinct(s)
    ensures Distinct(Minus(s, buf))
  {
    if s != [] {
      MinusDistinct(s[1..], buf);
      MinusKeeps(s[1..], buf);
      assert s[0] !in s[1..];
      assert s[0] !in Minus(s[1..], buf);
    }
  }

  lemma {:induction false} WithoutInFront<T>(s: seq<T>, t: seq<T>, e: T)
    requires e in s
    ensures Without(s + t, e) == Without(s, e) + t
  {
    var u := s + t;
    assert u[1..] == s[1..] + t && u[0] == s[0];
    if s[0] != e {
      assert e in s[1..] by { assert s == [s[0]] + s[1..]; }
      WithoutInFront(s[1..], t, e);
    }
  }

  lemma {:induction false} MinusWithout<T>(s: seq<T>, e: T, buf: seq<T>)
    requires Distinct(s) && e !in buf
    ensures Minus(Without(s, e), buf) == Without(Minus(s, buf), e)
  {
    if s != [] && s[0] != e {
      MinusWithout(s[1..], e, buf);
      assert ([s[0]] + Without(s[1..], e))[1..] == Without(s[1..], e);
      assert ([s[0]] + Minus(s[1..], buf))[1..] == Minus(s[1..], buf);
    } else if s != [] {
      assert ([s[0]] + Minus(s[1..], buf))[1..] == Minus(s[1..], buf);
    }
  }

  // ---------- the recency order under each operation

  /** The order lists exactly the entries, each once. */
  lemma OrderFacts<T>(b: Buffered<T>)
    requires WellFormed(b)
    ensures Distinct(Order(b)) && (forall x :: x in Order(b) <==> x in b.list)
  {
    MinusKeeps(b.list, b.ring);
    MinusDistinct(b.list, b.ring);
    var m := Minus(b.list, b.ring);
    var s := m + b.ring;
    forall x | x in b.list ensures x in s {
      assert x in m || x in b.ring;
    }
    forall i, j | 0 <= i < j < |s| ensures s[i] != s[j] {
      assert i < |m| ==> s[i] in m;
      assert j >= |m| ==> s[j] in b.ring;
    }
  }

  lemma FlushKeeps<T>(b: Buffered<T>)
    requires WellFormed(b)
    ensures WellFormed(FlushAll(b)) && Order(FlushAll(b)) == Order(b)
  {
    OrderFacts(b);
    MinusNothing(Order(b));
  }

  /** Moving the oldest buffered entry to the tail is the first step of a flush. */
  lemma FlushOne<T>(b: Buffered<T>)
    requires WellFormed(b) && b.ring != []
    ensures var c := b.ring[0];
            && c in b.list && WellFormed(Buffered(Without(b.list, c) + [c], b.ring[1..]))
            && Order(Buffered(Without(b.list, c) + [c], b.ring[1..])) == Order(b)
  {
    var c, rest := b.ring[0], b.ring[1..];
    var w := Without(b.list, c);
    assert b.ring == [c] + rest && c in b.ring && c !in rest;
    WithoutMembers(b.list, c);
    MinusSnoc(w, c, rest);
    MinusHidden(b.list, c, b.ring);
    MinusSame(w, b.ring, rest);
  }

  lemma AddKeeps<T>(b: Buffered<T>, x: T)
    requires WellFormed(b) && x !in b.list
    ensures WellFormed(Add(b, x)) && Order(Add(b, x)) == Minus(b.list, b.ring) + [x] + b.ring
  {
    MinusSnoc(b.list, x, b.ring);
  }

  /** A used entry becomes the most recent one, unless it is buffered already. */
  lemma TouchKeeps<T>(b: Buffered<T>, x: T, len: nat)
    requires WellFormed(b) && x in b.list
    ensures WellFormed(Touch(b, x, len)) && (forall y :: y in Touch(b, x, len).list <==> y in b.list)
    ensures Order(Touch(b, x, len)) == if x in b.ring then Order(b) else Without(Order(b), x) + [x]
  {
    hide Order;
    if x !in b.ring {
      if |b.ring| < len {
        JoinKeeps(b, x);
      } else {
        FlushKeeps(b);
        OrderFacts(b);
        JoinKeeps(FlushAll(b), x);
        assert [] + [x] == [x];
      }
    }
  }

  lemma JoinKeeps<T>(b: Buffered<T>, x: T)
    requires WellFormed(b) && x in b.list && x !in b.ring
    ensures WellFormed(b.(ring := b.ring + [x])) && Order(b.(ring := b.ring + [x])) == Without(Order(b), x) + [x]
  {
    MinusMore(b.list, x, b.ring);
    MinusKeeps(b.list, b.ring);
    WithoutInFront(Minus(b.list, b.ring), b.ring, x);
  }

  lemma SettleKeeps<T>(b: Buffered<T>, x: T)
    requires WellFormed(b) && x in b.list
    ensures var c := Settle(b, x);
            WellFormed(c) && Order(c) == Order(b) && x !in c.ring && forall y :: y in c.list <==> y in b.list
  {
    FlushKeeps(b);
    OrderFacts(b);
  }

  lemma DropKeeps<T>(b: Buffered<T>, x: T)
    requires WellFormed(b) && x in b.list
    ensures WellFormed(Drop(b, x)) && Order(Drop(b, x)) == Without(Order(b), x)
    ensures forall y :: y in Drop(b, x).list <==> y in b.list && y != x
  {
    var c := Settle(b, x);
    SettleKeeps(b, x);
    hide Settle;
    WithoutMembers(c.list, x);
    MinusKeeps(c.list, c.ring);
    WithoutInFront(Minus(c.list, c.ring), c.ring, x);
    MinusWithout(c.list, x, c.ring);
  }

  /** Evicting takes the first of the order. */
  lemma DropOldestKeeps<T>(b: Buffered<T>)
    requires WellFormed(b) && b.list != []
    ensures WellFormed(DropOldest(b)) && Order(b) != [] && Oldest(b).list != [] && Oldest(b).list[0] == Order(b)[0]
    ensures Order(DropOldest(b)) == Order(b)[1..] && DropOldest(b) == Drop(Oldest(b), Order(b)[0])
    ensures forall y :: y in DropOldest(b).list <==> y in b.list && y != Order(b)[0]
  {
    var c := Oldest(b);
    assert b.list[0] in b.list;
    OldestFacts(b);
    var x := c.list[0];
    OrderFacts(c);
    assert Minus(c.list, c.ring)[0] == x;
    assert Order(c)[0] == x;
    hide Oldest, Minus;
    DropKeeps(c, x);
    WithoutAt(c.list, x, 0);
    WithoutAt(Order(c), x, 0);
  }

  lemma OldestFacts<T>(b: Buffered<T>)
    requires WellFormed(b) && b.list != []
    ensures var c := Oldest(b);
            && WellFormed(c) && Order(c) == Order(b) && c.list != [] && c.list[0] !in c.ring
            && forall y :: y in c.list <==> y in b.list
  {
    assert b.list[0] in b.list;
    SettleKeeps(b, b.list[0]);
  }
}
