/** The entries of the cache seen through their keys. */
module CacheNames {
  import opened Bytes
  import opened Sequences
  import opened LruSpec
  import opened CacheLinks
  import S = CacheSpec
  import R = RingBuffer

  /** The keys of the entries, in order. */
  ghost function KeysOf(order: seq<int>, ents: Entries): seq<Key> {
    if order == [] then []
    else [if order[0] in ents then ents[order[0]].key else []] + KeysOf(order[1..], ents)
  }

  /** Different listed entries have different keys. */
  ghost predicate OwnKeys(order: seq<int>, ents: Entries) {
    && (forall x | x in order :: x in ents)
    && (forall x, y | x in order && y in order && ents[x].key == ents[y].key :: x == y)
  }

  ghost function Named(b: Buffered<int>, ents: Entries): Buffered<Key> {
    Buffered(KeysOf(b.list, ents), KeysOf(b.ring, ents))
  }

  lemma {:induction false} KeysKept(order: seq<int>, ents: Entries, f: Entries)
    requires forall x | x in order :: x in ents && x in f && f[x].key == ents[x].key
    ensures KeysOf(order, f) == KeysOf(order, ents)
  {
    if order != [] {
      var h := order[0];
      assert h in order && h in ents && h in f && forall x | x in order[1..] :: x in order;
      KeysKept(order[1..], ents, f);
    }
  }

  lemma {:induction false} KeysConcat(s: seq<int>, t: seq<int>, ents: Entries)
    ensures KeysOf(s + t, ents) == KeysOf(s, ents) + KeysOf(t, ents) && |KeysOf(s, ents)| == |s|
  {
    var u := s + t;
    if s == [] {
      assert u == t;
    } else {
      assert u[0] == s[0] && u[1..] == s[1..] + t;
      KeysConcat(s[1..], t, ents);
    }
  }

  lemma {:induction false} KeysAt(order: seq<int>, ents: Entries, i: nat)
    requires i < |order| && order[i] in ents
    ensures |KeysOf(order, ents)| == |order| && KeysOf(order, ents)[i] == ents[order[i]].key
  {
    KeysConcat(order, [], ents);
    if i > 0 {
      KeysAt(order[1..], ents, i - 1);
    }
  }

  lemma KeysOne(e: int, ents: Entries)
    requires e in ents
    ensures KeysOf([e], ents) == [ents[e].key]
  {
  }

  lemma {:induction false} KeyInKeys(s: seq<int>, ents: Entries, e: int)
    requires e in ents && (forall x | x in s :: x in ents && (ents[x].key == ents[e].key ==> x == e))
    ensures ents[e].key in KeysOf(s, ents) <==> e in s
  {
    if s != [] {
      var h := s[0];
      assert h in s && h in ents && forall x | x in s[1..] :: x in s;
      assert s == [h] + s[1..];
      KeyInKeys(s[1..], ents, e);
    }
  }

  lemma {:induction false} KeysWithout(order: seq<int>, ents: Entries, e: int)
    requires e in order && OwnKeys(order, ents)
    ensures KeysOf(Without(order, e), ents) == Without(KeysOf(order, ents), ents[e].key)
  {
    var h := order[0];
    assert h in order && h in ents;
    var ks, rest := KeysOf(order, ents), order[1..];
    assert ks[1..] == KeysOf(rest, ents) && ks[0] == ents[order[0]].key;
    if order[0] != e {
      assert e in rest by { assert order == [order[0]] + rest; }
      assert forall x | x in rest :: x in order;
      KeysWithout(rest, ents, e);
      assert ([order[0]] + Without(rest, e))[1..] == Without(rest, e);
    }
  }

  lemma {:induction false} KeysMinus(s: seq<int>, buf: seq<int>, ents: Entries)
    requires OwnKeys(s + buf, ents)
    ensures KeysOf(Minus(s, buf), ents) == Minus(KeysOf(s, ents), KeysOf(buf, ents))
  {
    if s != [] {
      var h, rest, ks := s[0], s[1..], KeysOf(s, ents);
      assert (s + buf)[0] == h && h in s + buf;
      assert forall x | x in rest + buf :: x in s + buf;
      assert forall x | x in buf :: x in s + buf;
      KeysMinus(rest, buf, ents);
      KeyInKeys(buf, ents, h);
      assert ks[0] == ents[h].key && ks[1..] == KeysOf(rest, ents);
      if h !in buf {
        KeysConcat([h], Minus(rest, buf), ents);
        KeysOne(h, ents);
      }
    }
  }

  lemma {:induction false} KeysDistinct(order: seq<int>, ents: Entries)
    requires Distinct(order) && OwnKeys(order, ents)
    ensures Distinct(KeysOf(order, ents)) && |KeysOf(order, ents)| == |order|
  {
    KeysConcat(order, [], ents);
    var ks := KeysOf(order, ents);
    forall i, j | 0 <= i < j < |ks| ensures ks[i] != ks[j] {
      assert order[i] in order && order[j] in order;
      KeysAt(order, ents, i);
      KeysAt(order, ents, j);
    }
  }

  lemma {:induction false} KeysFrom(order: seq<int>, ents: Entries, k: Key) returns (e: int)
    requires k in KeysOf(order, ents) && (forall x | x in order :: x in ents)
    ensures e in order && ents[e].key == k
  {
    var h := order[0];
    assert h in order && h in ents;
    if ents[h].key == k {
      e := h;
    } else {
      assert forall x | x in order[1..] :: x in order;
      e := KeysFrom(order[1..], ents, k);
    }
  }

  // ---------- the operations, seen through the keys

  /** The entries are in order and have keys of their own. */
  ghost predicate Nameable(b: Buffered<int>, ents: Entries) {
    WellFormed(b) && OwnKeys(b.list, ents)
  }

  lemma NamedShape(b: Buffered<int>, ents: Entries)
    requires Nameable(b, ents)
    ensures WellFormed(Named(b, ents)) && |Named(b, ents).list| == |b.list| && |Named(b, ents).ring| == |b.ring|
  {
    hide KeysOf;
    KeysDistinct(b.list, ents);
    assert forall x | x in b.ring :: x in b.list;
    KeysDistinct(b.ring, ents);
    forall k | k in KeysOf(b.ring, ents) ensures k in KeysOf(b.list, ents) {
      var e := KeysFrom(b.ring, ents, k);
      KeyInKeys(b.list, ents, e);
    }
  }

  lemma NamedOrder(b: Buffered<int>, ents: Entries)
    requires Nameable(b, ents)
    ensures Order(Named(b, ents)) == KeysOf(Order(b), ents) && FlushAll(Named(b, ents)) == Named(FlushAll(b), ents)
    ensures |Order(b)| == |Order(Named(b, ents))|
  {
    hide Minus, KeysOf;
    assert forall x | x in b.list + b.ring :: x in b.list;
    KeysMinus(b.list, b.ring, ents);
    KeysConcat(Minus(b.list, b.ring), b.ring, ents);
    KeysConcat(Order(b), [], ents);
    NoKeys(ents);
  }

  lemma NoKeys(ents: Entries)
    ensures KeysOf([], ents) == []
  {
  }

  lemma InRing(b: Buffered<int>, ents: Entries, e: int)
    requires Nameable(b, ents) && e in b.list
    ensures e in ents && (ents[e].key in Named(b, ents).ring <==> e in b.ring)
    ensures ents[e].key in Named(b, ents).list
  {
    KeyInKeys(b.ring, ents, e);
    KeyInKeys(b.list, ents, e);
  }

  lemma NamedTouch(b: Buffered<int>, ents: Entries, e: int, len: nat)
    requires Nameable(b, ents) && e in b.list
    ensures Named(Touch(b, e, len), ents) == Touch(Named(b, ents), ents[e].key, len)
  {
    hide KeysOf, Minus, Nameable;
    InRing(b, ents, e);
    NamedOrder(b, ents);
    KeysConcat(b.ring, [e], ents);
    KeysOne(e, ents);
  }

  lemma NamedAdd(b: Buffered<int>, ents: Entries, id: int, entry: Entry)
    requires Nameable(b, ents) && id !in ents
    ensures Named(Add(b, id), ents[id := entry]) == Add(Named(b, ents), entry.key)
  {
    hide KeysOf;
    var f := ents[id := entry];
    KeysKept(b.list, ents, f);
    KeysKept(b.ring, ents, f);
    KeysConcat(b.list, [id], f);
    KeysOne(id, f);
  }

  lemma NamedDrop(b: Buffered<int>, ents: Entries, e: int)
    requires Nameable(b, ents) && e in b.list
    ensures Named(Drop(b, e), ents - {e}) == Drop(Named(b, ents), ents[e].key)
  {
    hide KeysOf, Minus;
    InRing(b, ents, e);
    NamedOrder(b, ents);
    SettleKeeps(b, e);
    var c := Settle(b, e);
    assert Named(c, ents) == Settle(Named(b, ents), ents[e].key);
    KeysWithout(c.list, ents, e);
    WithoutMembers(c.list, e);
    KeysKept(Without(c.list, e), ents, ents - {e});
    KeysKept(c.ring, ents, ents - {e});
  }

  lemma NamedDropOldest(b: Buffered<int>, ents: Entries)
    requires Nameable(b, ents) && b.list != []
    ensures var e := Order(b)[0];
            && e in b.list && e in ents && Order(Named(b, ents)) != [] && Order(Named(b, ents))[0] == ents[e].key
            && Named(DropOldest(b), ents - {e}) == DropOldest(Named(b, ents))
  {
    hide KeysOf, Minus;
    DropOldestKeeps(b);
    OrderFacts(b);
    var e := Order(b)[0];
    assert e in Order(b);
    NamedOrder(b, ents);
    KeysAt(Order(b), ents, 0);
    NamedShape(b, ents);
    DropOldestKeeps(Named(b, ents));
    OldestNamed(b, ents);
    OldestFacts(b);
    hide Oldest, DropOldest;
    NamedDrop(Oldest(b), ents, e);
  }

  lemma OldestNamed(b: Buffered<int>, ents: Entries)
    requires Nameable(b, ents) && b.list != []
    ensures Named(b, ents).list != [] && Named(Oldest(b), ents) == Oldest(Named(b, ents))
  {
    hide Minus;
    var h := b.list[0];
    assert h in b.list;
    KeysAt(b.list, ents, 0);
    InRing(b, ents, h);
    NamedOrder(b, ents);
  }

  /** A state of entries with keys of their own is one of the specification. */
  lemma NamedWellFormed(b: Buffered<int>, ents: Entries, content: map<Key, seq<byte>>)
    requires Nameable(b, ents) && (forall x :: x in ents <==> x in b.list)
    requires forall k :: k in content <==> exists x | x in ents :: ents[x].key == k
    ensures S.WellFormed(S.State(content, Named(b, ents)))
  {
    hide KeysOf;
    NamedShape(b, ents);
    var ks := Named(b, ents).list;
    forall k ensures k in ks <==> k in content {
      if k in ks {
        var e := KeysFrom(b.list, ents, k);
      }
      if k in content {
        var x :| x in ents && ents[x].key == k;
        InRing(b, ents, x);
      }
    }
  }
}
