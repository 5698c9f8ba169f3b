/** The ring buffer run by one thread at a time: a bounded queue. */
module RingBuffer {

  import opened Sums

  const LEN_RING_BUF := 4096

  /** The slot of a position; `len` is a power of two, so the source masks instead. */
  function Slot(pos: nat, len: nat): (i: nat)
    requires 0 < len
    ensures i < len
  {
    pos % len
  }

  lemma SameSlot(x: nat, y: nat, len: nat)
    requires 0 < len && Slot(x, len) == Slot(y, len) && x < y + len && y < x + len
    ensures x == y
  {
    ModRest(x, len);
    ModRest(y, len);
    ModAdd(x - x % len, y - y % len, len);
    SmallMultiple(x - y, len);
  }

  lemma SlotLap(pos: nat, len: nat)
    requires 0 < len
    ensures Slot(pos + len, len) == Slot(pos, len)
  {
    var d := Slot(pos + len, len) - Slot(pos, len);
    ModRest(pos, len);
    ModRest(pos + len, len);
    MulMod(1, len);
    ModAdd(pos - pos % len, len, len);
    ModAdd(pos - pos % len + len, pos + len - (pos + len) % len, len);
    SmallMultiple(d, len);
  }

  /** The slot `k` places after position `pos`. */
  function Ahead(pos: nat, k: nat, len: nat): (i: nat)
    requires 0 < len
    ensures i < len
  {
    Slot(pos + k, len)
  }

  lemma AheadApart(pos: nat, j: nat, k: nat, len: nat)
    requires 0 < len && j < len && k < len && Ahead(pos, j, len) == Ahead(pos, k, len)
    ensures j == k
  {
    SameSlot(pos + j, pos + k, len);
  }

  lemma AheadNext(pos: nat, k: nat, len: nat)
    requires 0 < len
    ensures Ahead(pos + 1, k, len) == Ahead(pos, k + 1, len) && Ahead(pos, len, len) == Ahead(pos, 0, len)
    ensures Ahead(pos, 0, len) == Slot(pos, len) && Ahead(pos, k, len) == Slot(pos + k, len)
  {
    SlotLap(pos, len);
  }

  /** The queue `s` lies in the slots from `pos` on, and all other slots are NULL. */
  ghost predicate Window(slots: seq<int>, pos: nat, s: seq<int>) {
    && 0 < |slots| && |s| <= |slots| && 0 !in s
    && (forall k: nat | k < |slots| :: slots[Ahead(pos, k, |slots|)] == if k < |s| then s[k] else 0)
  }

  lemma WindowPush(slots: seq<int>, pos: nat, s: seq<int>, x: int)
    requires Window(slots, pos, s) && |s| < |slots| && x != 0
    ensures slots[Slot(pos + |s|, |slots|)] == 0
    ensures Window(slots[Slot(pos + |s|, |slots|) := x], pos, s + [x])
  {
    hide Slot, Ahead;
    var n := |slots|;
    AheadNext(pos, |s|, n);
    var w := Ahead(pos, |s|, n);
    var t, u := slots[w := x], s + [x];
    forall k: nat | k < n ensures t[Ahead(pos, k, n)] == if k < |u| then u[k] else 0 {
      if Ahead(pos, k, n) == w { AheadApart(pos, k, |s|, n); }
    }
  }

  lemma PoppedSlot(slots: seq<int>, pos: nat, s: seq<int>, k: nat)
    requires Window(slots, pos, s) && s != [] && k < |slots|
    ensures slots[Slot(pos, |slots|) := 0][Ahead(pos + 1, k, |slots|)] == if k + 1 < |s| then s[k + 1] else 0
  {
    hide Slot, Ahead;
    var n := |slots|;
    AheadNext(pos, k, n);
    var r := Ahead(pos, 0, n);
    if k + 1 < n {
      if Ahead(pos, k + 1, n) == r { AheadApart(pos, k + 1, 0, n); }
      assert slots[Ahead(pos, k + 1, n)] == if k + 1 < |s| then s[k + 1] else 0;
    }
  }

  lemma WindowPop(slots: seq<int>, pos: nat, s: seq<int>)
    requires Window(slots, pos, s) && s != []
    ensures slots[Slot(pos, |slots|)] == s[0] != 0
    ensures Window(slots[Slot(pos, |slots|) := 0], pos + 1, s[1..])
  {
    hide Slot, Ahead;
    var n := |slots|;
    AheadNext(pos, 0, n);
    var t, u := slots[Slot(pos, n) := 0], s[1..];
    forall i | 0 <= i < |u| ensures u[i] == s[i + 1] != 0 {
      assert s[i + 1] in s;
    }
    var p: nat := pos + 1;
    forall k: nat | k < n ensures t[Ahead(p, k, n)] == if k < |u| then u[k] else 0 {
      PoppedSlot(slots, pos, s, k);
    }
  }

  class RingBuffer {
    const data: array<int>
    var readPos: nat
    var writePos: nat
    var nfree: nat
    var nused: nat
    ghost var contents: seq<int>

    ghost predicate Valid()
      reads this, data
    {
      && Window(data[..], readPos, contents) && |contents| <= data.Length && 0 < data.Length
      && writePos == readPos + |contents| && nused == |contents| && nfree == data.Length - |contents|
    }

    constructor (length: nat)
      requires 0 < length
      ensures Valid() && contents == [] && data.Length == length && fresh(data)
    {
      data := new int[length](_ => 0);
      readPos, writePos, nfree, nused, contents := 0, 0, length, 0, [];
    }

    /** Append; fails exactly when the buffer is full. */
    method TryEnqueue(x: int) returns (ok: bool)
      requires Valid() && x != 0
      modifies this, data
      ensures Valid()
      ensures ok == (|old(contents)| < data.Length)
      ensures contents == if ok then old(contents) + [x] else old(contents)
    {
      hide Window, Slot;
      if nfree == 0 {
        return false;
      }
      nfree := nfree - 1;
      WindowPush(data[..], readPos, contents, x);
      var w := Slot(writePos, data.Length);
      writePos := writePos + 1;
      assert data[w] == data[..][w] == 0;
      data[w] := x;
      assert data[..] == old(data[..])[w := x];
      contents := contents + [x];
      nused := nused + 1;
      ok := true;
    }

    /** Take the oldest element; NULL exactly when the buffer is empty. */
    method TryDequeue() returns (x: int)
      requires Valid()
      modifies this, data
      ensures Valid()
      ensures x == if old(contents) == [] then 0 else old(contents)[0]
      ensures contents == if old(contents) == [] then [] else old(contents)[1..]
    {
      hide Window, Slot;
      if nused == 0 {
        return 0;
      }
      nused := nused - 1;
      WindowPop(data[..], readPos, contents);
      var r := Slot(readPos, data.Length);
      readPos := readPos + 1;
      x := data[r];
      assert x == data[..][r];
      data[r] := 0;
      assert data[..] == old(data[..])[r := 0];
      contents := contents[1..];
      nfree := nfree + 1;
    }
  }
}
