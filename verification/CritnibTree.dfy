/** The crit-nib tree as a value: which keys it holds, why a descent that looks only at the
    branching nibbles finds them, and why its shape depends on nothing but those keys. */
module CritnibTree {
  import opened Bytes

  const SLICE := 4
  const SLNODES := 16

  datatype Item = Item(key: Key, id: int)

  /** A node tests the nibble of `byte` at `bit` (4 is the high one, 0 the low one). */
  datatype Tree =
    | Empty
    | Leaf(item: Item)
    | Node(addr: int, byte: int, bit: int, kids: seq<Tree>)

  // ---------- nibbles

  /** Nibbles in reading order: the high nibble of a byte comes before the low one. */
  function Pos(byte: int, bit: int): int {
    2 * byte + if bit == 0 then 1 else 0
  }

  function SliceIndex(b: byte, bit: int): (i: int)
    ensures 0 <= i < SLNODES
  {
    if bit == 0 then b % 16 else b / 16
  }

  function Nib(k: Key, p: int): int
    requires 0 <= p < 2 * |k|
  {
    if p % 2 == 0 then k[p / 2] / 16 else k[p / 2] % 16
  }

  /** Both keys have, and agree on, the nibbles before `d`. */
  ghost predicate Agree(k: Key, m: Key, d: int) {
    d <= 2 * |k| && d <= 2 * |m| && forall p | 0 <= p < d :: Nib(k, p) == Nib(m, p)
  }

  // ---------- the tree

  ghost predicate Has(t: Tree, x: Item) {
    match t
    case Empty => false
    case Leaf(item) => x == item
    case Node(_, _, _, kids) => exists i | 0 <= i < |kids| :: Has(kids[i], x)
  }

  /** Child `i` holds the keys whose tested nibble is `i`. */
  ghost predicate Placed(byte: int, bit: int, kids: seq<Tree>)
    requires 0 <= byte
  {
    forall i, x {:trigger Has(kids[i], x)} | 0 <= i < |kids| && Has(kids[i], x) ::
      byte < |x.key| && SliceIndex(x.key[byte], bit) == i
  }

  /** All keys of a node agree on the nibbles before the tested one. */
  ghost predicate Prefixed(d: int, kids: seq<Tree>) {
    forall i, j, x, y {:trigger Has(kids[i], x), Has(kids[j], y)}
      | 0 <= i < |kids| && 0 <= j < |kids| && Has(kids[i], x) && Has(kids[j], y) :: Agree(x.key, y.key, d)
  }

  ghost predicate Forked(kids: seq<Tree>) {
    exists i, j | 0 <= i < j < |kids| :: kids[i] != Empty && kids[j] != Empty
  }

  ghost predicate Deeper(d: int, kids: seq<Tree>) {
    forall i | 0 <= i < |kids| && kids[i].Node? :: d < Pos(kids[i].byte, kids[i].bit)
  }

  ghost predicate NodeOk(byte: int, bit: int, kids: seq<Tree>) {
    && |kids| == SLNODES && 0 <= byte && (bit == 0 || bit == 4)
    && Placed(byte, bit, kids)
    && Prefixed(Pos(byte, bit), kids)
    && Forked(kids)
    && Deeper(Pos(byte, bit), kids)
  }

  ghost predicate WF(t: Tree) {
    t.Node? ==> NodeOk(t.byte, t.bit, t.kids) && forall i | 0 <= i < |t.kids| :: WF(t.kids[i])
  }

  // ---------- finding some leaf

  function FirstKid(kids: seq<Tree>, from: int): (i: int)
    requires 0 <= from <= |kids|
    ensures from <= i <= |kids|
    ensures forall j | from <= j < i :: kids[j] == Empty
    ensures i < |kids| ==> kids[i] != Empty
    decreases |kids| - from
  {
    if from == |kids| || kids[from] != Empty then from else FirstKid(kids, from + 1)
  }

  /** `any_leaf`; never fails on a node, because a node has children. */
  function AnyLeaf(t: Tree): (x: Item)
    requires WF(t) && t != Empty
    ensures Has(t, x)
  {
    match t
    case Leaf(item) => item
    case Node(_, _, _, kids) =>
      var i := FirstKid(kids, 0);
      AnyLeaf(kids[i])
  }

  // ---------- lookup

  function Find(t: Tree, key: Key): (r: set<int>)
    requires WF(t)
  {
    match t
    case Empty => {}
    case Leaf(item) => if item.key == key then {item.id} else {}
    case Node(_, byte, bit, kids) =>
      if byte >= |key| then {} else Find(kids[SliceIndex(key[byte], bit)], key)
  }

  /** Testing only the branching nibbles, and the whole key at the end, finds exactly the stored key. */
  lemma {:induction false} FindIsHas(t: Tree, key: Key, id: int)
    requires WF(t)
    ensures id in Find(t, key) <==> Has(t, Item(key, id))
  {
    match t
    case Empty =>
    case Leaf(_) =>
    case Node(_, byte, bit, kids) =>
      if byte < |key| {
        FindIsHas(kids[SliceIndex(key[byte], bit)], key, id);
      }
  }

  // ---------- the first descent of an insertion

  /** The leaf that the first descent ends at. */
  function Walk(t: Tree, key: Key): (x: Item)
    requires WF(t) && t != Empty
    ensures Has(t, x)
  {
    match t
    case Leaf(item) => item
    case Node(_, byte, bit, kids) =>
      if byte >= |key| || kids[SliceIndex(key[byte], bit)] == Empty then AnyLeaf(t)
      else Walk(kids[SliceIndex(key[byte], bit)], key)
  }

  lemma NibIsSlice(k: Key, byte: int, bit: int)
    requires 0 <= byte < |k| && (bit == 0 || bit == 4)
    ensures Nib(k, Pos(byte, bit)) == SliceIndex(k[byte], bit)
  {
  }

  lemma AgreeTrans(k: Key, m: Key, n: Key, d: int, e: int, f: int)
    requires Agree(k, m, d) && Agree(m, n, e) && f <= d && f <= e
    ensures Agree(k, n, f)
  {
  }

  /** No leaf shares a longer prefix with the key than the leaf found. */
  lemma {:induction false} WalkIsBest(t: Tree, key: Key, x: Item, d: int)
    requires WF(t) && Has(t, x) && Agree(x.key, key, d)
    ensures Agree(Walk(t, key).key, key, d)
  {
    match t
    case Leaf(_) =>
    case Node(_, byte, bit, kids) =>
      var p, w := Pos(byte, bit), Walk(t, key);
      if d <= p {
        assert Agree(w.key, x.key, p);
        AgreeTrans(w.key, x.key, key, p, d, d);
      } else {
        NibIsSlice(x.key, byte, bit);
        NibIsSlice(key, byte, bit);
        WalkIsBest(kids[SliceIndex(key[byte], bit)], key, x, d);
      }
  }

  // ---------- insertion

  /** `d` is the first nibble at which the new key leaves every stored key, as seen from leaf `nk`. */
  ghost predicate Diverge(nk: Key, key: Key, byte: int, bit: int) {
    && 0 <= byte < |nk| && byte < |key| && (bit == 0 || bit == 4)
    && Agree(nk, key, Pos(byte, bit))
    && SliceIndex(nk[byte], bit) != SliceIndex(key[byte], bit)
  }

  function NoKids(): (s: seq<Tree>)
    ensures |s| == SLNODES && forall i | 0 <= i < |s| :: s[i] == Empty
  {
    [Empty, Empty, Empty, Empty, Empty, Empty, Empty, Empty, Empty, Empty, Empty, Empty, Empty, Empty, Empty, Empty]
  }

  /** A new node in the middle of an edge: the old subtree and the new leaf below it. */
  function Fork(t: Tree, nk: Key, x: Item, byte: int, bit: int, addr: int): Tree
    requires 0 <= byte < |nk| && byte < |x.key|
  {
    Node(addr, byte, bit,
         NoKids()[SliceIndex(nk[byte], bit) := t][SliceIndex(x.key[byte], bit) := Leaf(x)])
  }

  /** The second descent stops here: at an empty slot, a leaf, or a node past the divergence. */
  predicate Stops(t: Tree, byte: int, bit: int) {
    !t.Node? || Pos(t.byte, t.bit) > Pos(byte, bit)
  }

  function InsertAt(t: Tree, nk: Key, x: Item, byte: int, bit: int, addr: int): Tree
    requires WF(t) && 0 <= byte < |nk| && byte < |x.key|
  {
    if t == Empty then Leaf(x)
    else if Stops(t, byte, bit) then Fork(t, nk, x, byte, bit, addr)
    else if t.byte >= |x.key| then t
    else
      var i := SliceIndex(x.key[t.byte], t.bit);
      t.(kids := t.kids[i := InsertAt(t.kids[i], nk, x, byte, bit, addr)])
  }

  /** Every key below a stopping point shares the divergence nibble with `nk` and the nibbles before it with `x`. */
  lemma BelowFork(t: Tree, nk: Item, x: Item, byte: int, bit: int, y: Item)
    requires WF(t) && Has(t, nk) && Diverge(nk.key, x.key, byte, bit) && Stops(t, byte, bit) && Has(t, y)
    ensures Agree(y.key, nk.key, Pos(byte, bit) + 1) && Agree(y.key, x.key, Pos(byte, bit))
    ensures byte < |y.key| && SliceIndex(y.key[byte], bit) == SliceIndex(nk.key[byte], bit)
  {
    var d := Pos(byte, bit);
    if t.Node? {
      assert Agree(y.key, nk.key, Pos(t.byte, t.bit));
    }
    assert Agree(y.key, nk.key, d + 1);
    AgreeTrans(y.key, nk.key, x.key, d + 1, d, d);
    NibIsSlice(y.key, byte, bit);
    NibIsSlice(nk.key, byte, bit);
  }

  lemma ForkHas(t: Tree, nk: Key, x: Item, byte: int, bit: int, addr: int, i: int, y: Item)
    requires 0 <= byte < |nk| && byte < |x.key| && SliceIndex(nk[byte], bit) != SliceIndex(x.key[byte], bit)
    requires 0 <= i < SLNODES
    ensures var f := Fork(t, nk, x, byte, bit, addr);
            && |f.kids| == SLNODES
            && (Has(f.kids[i], y) <==> (i == SliceIndex(nk[byte], bit) && Has(t, y))
                                       || (i == SliceIndex(x.key[byte], bit) && y == x))
            && (f.kids[i] != Empty ==> i == SliceIndex(nk[byte], bit) || i == SliceIndex(x.key[byte], bit))
            && f.kids[SliceIndex(nk[byte], bit)] == t && f.kids[SliceIndex(x.key[byte], bit)] == Leaf(x)
  {
    hide NoKids;
  }

  lemma ForkNodeOk(t: Tree, nk: Item, x: Item, byte: int, bit: int, addr: int)
    requires WF(t) && Has(t, nk) && Diverge(nk.key, x.key, byte, bit) && Stops(t, byte, bit)
    ensures NodeOk(byte, bit, Fork(t, nk.key, x, byte, bit, addr).kids)
  {
    var kids := Fork(t, nk.key, x, byte, bit, addr).kids;
    var d := Pos(byte, bit);
    forall i, y | 0 <= i < SLNODES
      ensures Has(kids[i], y) ==> byte < |y.key| && SliceIndex(y.key[byte], bit) == i && (y == x || Has(t, y))
    {
      ForkHas(t, nk.key, x, byte, bit, addr, i, y);
      if Has(t, y) { BelowFork(t, nk, x, byte, bit, y); }
    }
    forall y, z | (y == x || Has(t, y)) && (z == x || Has(t, z)) ensures Agree(y.key, z.key, d) {
      if y != x { BelowFork(t, nk, x, byte, bit, y); }
      if z != x { BelowFork(t, nk, x, byte, bit, z); }
    }
    var i, j := SliceIndex(nk.key[byte], bit), SliceIndex(x.key[byte], bit);
    ForkHas(t, nk.key, x, byte, bit, addr, i, nk);
    assert kids[i] != Empty && kids[j] != Empty;
    forall m | 0 <= m < SLNODES && kids[m].Node? ensures d < Pos(kids[m].byte, kids[m].bit) {
      ForkHas(t, nk.key, x, byte, bit, addr, m, nk);
    }
  }

  lemma ForkWF(t: Tree, nk: Item, x: Item, byte: int, bit: int, addr: int)
    requires WF(t) && Has(t, nk) && Diverge(nk.key, x.key, byte, bit) && Stops(t, byte, bit)
    ensures WF(Fork(t, nk.key, x, byte, bit, addr))
    ensures forall y :: Has(Fork(t, nk.key, x, byte, bit, addr), y) <==> Has(t, y) || y == x
  {
    var f := Fork(t, nk.key, x, byte, bit, addr);
    ForkNodeOk(t, nk, x, byte, bit, addr);
    hide NodeOk;
    forall i | 0 <= i < SLNODES ensures WF(f.kids[i]) {
      ForkHas(t, nk.key, x, byte, bit, addr, i, nk);
    }
    forall y ensures Has(f, y) <==> Has(t, y) || y == x {
      forall i | 0 <= i < SLNODES
        ensures Has(f.kids[i], y) <==> (i == SliceIndex(nk.key[byte], bit) && Has(t, y))
                                       || (i == SliceIndex(x.key[byte], bit) && y == x)
      {
        ForkHas(t, nk.key, x, byte, bit, addr, i, y);
      }
    }
  }

  lemma SamePrefix(t: Tree, x: Item, y: Item)
    requires WF(t) && t.Node? && Has(t, x) && Has(t, y)
    ensures Agree(x.key, y.key, Pos(t.byte, t.bit))
  {
  }

  /** A key that a node at `byte`, `bit` may hold below child `i`. */
  ghost predicate Fits(byte: int, bit: int, kids: seq<Tree>, i: int, x: Item) {
    && 0 <= byte < |x.key| && SliceIndex(x.key[byte], bit) == i
    && Agree(x.key, x.key, Pos(byte, bit))
    && (forall j, z {:trigger Has(kids[j], z)} | 0 <= j < |kids| && Has(kids[j], z) ::
          Agree(x.key, z.key, Pos(byte, bit)) && Agree(z.key, x.key, Pos(byte, bit)))
  }

  lemma ReplacePlaced(byte: int, bit: int, kids: seq<Tree>, i: int, k: Tree, x: Item)
    requires 0 <= i < |kids| && Fits(byte, bit, kids, i, x) && Placed(byte, bit, kids)
    requires forall y | Has(k, y) :: Has(kids[i], y) || y == x
    ensures Placed(byte, bit, kids[i := k])
  {
  }

  lemma ReplacePrefixed(byte: int, bit: int, kids: seq<Tree>, i: int, k: Tree, x: Item)
    requires 0 <= i < |kids| && Fits(byte, bit, kids, i, x) && Prefixed(Pos(byte, bit), kids)
    requires forall y | Has(k, y) :: Has(kids[i], y) || y == x
    ensures Prefixed(Pos(byte, bit), kids[i := k])
  {
    hide Agree, SliceIndex;
    var ks := kids[i := k];
    forall j, y | 0 <= j < |ks| && Has(ks[j], y) ensures Has(kids[j], y) || y == x {}
  }

  lemma ReplaceForked(kids: seq<Tree>, i: int, k: Tree)
    requires 0 <= i < |kids| && Forked(kids) && k != Empty
    ensures Forked(kids[i := k])
  {
    var ks := kids[i := k];
    var a, b :| 0 <= a < b < |kids| && kids[a] != Empty && kids[b] != Empty;
    assert ks[a] != Empty && ks[b] != Empty;
  }

  /** Replacing one child by a subtree with the same keys, plus or minus some that belong there. */
  lemma ReplaceKid(byte: int, bit: int, kids: seq<Tree>, i: int, k: Tree, x: Item)
    requires NodeOk(byte, bit, kids) && 0 <= i < SLNODES && k != Empty && Fits(byte, bit, kids, i, x)
    requires forall y | Has(k, y) :: Has(kids[i], y) || y == x
    requires k.Node? ==> Pos(byte, bit) < Pos(k.byte, k.bit)
    ensures NodeOk(byte, bit, kids[i := k])
  {
    assert Deeper(Pos(byte, bit), kids[i := k]);
    hide Placed, Prefixed, Forked, Deeper, Fits;
    ReplacePlaced(byte, bit, kids, i, k, x);
    ReplacePrefixed(byte, bit, kids, i, k, x);
    ReplaceForked(kids, i, k);
  }

  lemma KidsHave(t: Tree, i: int, k: Tree, y: Item)
    requires t.Node? && 0 <= i < |t.kids|
    ensures Has(t.(kids := t.kids[i := k]), y) <==>
              Has(k, y) || exists j | 0 <= j < |t.kids| && j != i :: Has(t.kids[j], y)
  {
    var m := t.(kids := t.kids[i := k]);
    assert m.kids[i] == k;
    forall j | 0 <= j < |t.kids| && j != i ensures m.kids[j] == t.kids[j] {}
  }

  lemma FitsBelow(t: Tree, nk: Item, x: Item, byte: int, bit: int)
    requires WF(t) && Has(t, nk) && Diverge(nk.key, x.key, byte, bit) && !Stops(t, byte, bit)
    ensures t.byte < |x.key| && Fits(t.byte, t.bit, t.kids, SliceIndex(x.key[t.byte], t.bit), x)
    ensures forall z | Has(t, z) :: Agree(z.key, x.key, Pos(t.byte, t.bit))
    ensures Pos(t.byte, t.bit) < Pos(byte, bit) ==> Has(t.kids[SliceIndex(x.key[t.byte], t.bit)], nk)
  {
    var p, d := Pos(t.byte, t.bit), Pos(byte, bit);
    forall z | Has(t, z) ensures Agree(z.key, x.key, p) && Agree(x.key, z.key, p) {
      SamePrefix(t, z, nk);
      AgreeTrans(z.key, nk.key, x.key, p, d, p);
    }
    NibIsSlice(x.key, t.byte, t.bit);
    NibIsSlice(nk.key, t.byte, t.bit);
  }

  /** The insertion keeps the tree well formed and adds exactly the new key. */
  lemma {:induction false} InsertWF(t: Tree, nk: Item, x: Item, byte: int, bit: int, addr: int)
    requires WF(t) && Has(t, nk) && Diverge(nk.key, x.key, byte, bit)
    requires forall y | Has(t, y) :: !Agree(y.key, x.key, Pos(byte, bit) + 1)
    ensures var m := InsertAt(t, nk.key, x, byte, bit, addr);
            && WF(m) && m.Node?
            && (Pos(m.byte, m.bit) == Pos(byte, bit) || (t.Node? && Pos(m.byte, m.bit) == Pos(t.byte, t.bit)))
            && forall y :: Has(m, y) <==> Has(t, y) || y == x
    decreases t
  {
    if Stops(t, byte, bit) {
      ForkWF(t, nk, x, byte, bit, addr);
    } else {
      FitsBelow(t, nk, x, byte, bit);
      var i := SliceIndex(x.key[t.byte], t.bit);
      var k := InsertAt(t.kids[i], nk.key, x, byte, bit, addr);
      if Pos(t.byte, t.bit) < Pos(byte, bit) {
        InsertWF(t.kids[i], nk, x, byte, bit, addr);
      } else {
        EmptyAtFork(t, x, byte, bit);
      }
      hide Placed, Prefixed, Forked, Agree, Fits;
      ReplaceKid(t.byte, t.bit, t.kids, i, k, x);
      InsertedKid(t, i, k, x);
    }
  }

  /** Where a node already tests the divergence nibble, the new key's slot is empty. */
  lemma EmptyAtFork(t: Tree, x: Item, byte: int, bit: int)
    requires WF(t) && t.Node? && Pos(t.byte, t.bit) == Pos(byte, bit) && (bit == 0 || bit == 4) && 0 <= byte < |x.key|
    requires forall y | Has(t, y) :: Agree(y.key, x.key, Pos(byte, bit)) && !Agree(y.key, x.key, Pos(byte, bit) + 1)
    ensures t.byte == byte && t.bit == bit && t.kids[SliceIndex(x.key[byte], bit)] == Empty
  {
    var k := t.kids[SliceIndex(x.key[byte], bit)];
    NibIsSlice(x.key, byte, bit);
    if k != Empty {
      var y := AnyLeaf(k);
      assert Has(t, y);
      NibIsSlice(y.key, byte, bit);
    }
  }

  lemma InsertedKid(t: Tree, i: int, k: Tree, x: Item)
    requires WF(t) && t.Node? && 0 <= i < SLNODES && WF(k)
    requires NodeOk(t.byte, t.bit, t.kids[i := k])
    requires forall y :: Has(k, y) <==> Has(t.kids[i], y) || y == x
    ensures var m := t.(kids := t.kids[i := k]); WF(m) && forall y :: Has(m, y) <==> Has(t, y) || y == x
  {
    var m := t.(kids := t.kids[i := k]);
    hide NodeOk;
    forall y ensures Has(m, y) <==> Has(t, y) || y == x {
      KidsHave(t, i, k, y);
      KidsHave(t, i, t.kids[i], y);
      assert t.kids[i := t.kids[i]] == t.kids;
    }
  }

  // ---------- removal

  /** A node left with a single child is replaced by it. */
  function Collapse(t: Tree): Tree
    requires t.Node?
  {
    var i := FirstKid(t.kids, 0);
    if i < |t.kids| && FirstKid(t.kids, i + 1) == |t.kids| then t.kids[i] else t
  }

  function RemoveKey(t: Tree, key: Key): Tree
    requires WF(t)
  {
    match t
    case Empty => Empty
    case Leaf(item) => if item.key == key then Empty else t
    case Node(_, byte, bit, kids) =>
      if byte >= |key| then t
      else
        var i := SliceIndex(key[byte], bit);
        if kids[i].Leaf? && kids[i].item.key == key then Collapse(t.(kids := kids[i := Empty]))
        else t.(kids := kids[i := RemoveKey(kids[i], key)])
  }

  lemma FitsStored(t: Tree, i: int, x: Item)
    requires WF(t) && t.Node? && 0 <= i < SLNODES && Has(t.kids[i], x)
    ensures Fits(t.byte, t.bit, t.kids, i, x)
  {
  }

  lemma RemovedKid(t: Tree, i: int, k: Tree, x: Item, y: Item)
    requires WF(t) && t.Node? && 0 <= i < SLNODES && Has(t.kids[i], x)
    requires Has(k, y) <==> Has(t.kids[i], y) && y != x
    ensures Has(t.(kids := t.kids[i := k]), y) <==> Has(t, y) && y != x
  {
    KidsHave(t, i, k, y);
    KidsHave(t, i, t.kids[i], y);
    assert t.kids[i := t.kids[i]] == t.kids;
  }

  lemma DropHas(t: Tree, i: int, x: Item, y: Item)
    requires WF(t) && t.Node? && 0 <= i < SLNODES && t.kids[i] == Leaf(x)
    ensures Has(t.(kids := t.kids[i := Empty]), y) <==> Has(t, y) && y != x
  {
    FitsStored(t, i, x);
    RemovedKid(t, i, Empty, x, y);
  }

  lemma DropForked(t: Tree, i: int, x: Item, j: int, l: int)
    requires WF(t) && t.Node? && 0 <= i < SLNODES && t.kids[i] == Leaf(x)
    requires 0 <= j < l < SLNODES && j != i && l != i && t.kids[j] != Empty && t.kids[l] != Empty
    ensures WF(t.(kids := t.kids[i := Empty]))
  {
    var u := t.(kids := t.kids[i := Empty]);
    assert Forked(u.kids) by { assert u.kids[j] != Empty && u.kids[l] != Empty; }
    assert Deeper(Pos(t.byte, t.bit), u.kids);
    FitsStored(t, i, x);
    hide Agree, Forked, Deeper;
    ReplacePlaced(t.byte, t.bit, t.kids, i, Empty, x);
    ReplacePrefixed(t.byte, t.bit, t.kids, i, Empty, x);
  }

  lemma SomeKidStays(t: Tree, i: int)
    requires WF(t) && t.Node? && 0 <= i < SLNODES
    ensures FirstKid(t.kids[i := Empty], 0) < SLNODES
  {
    hide Agree, Placed, Prefixed, Deeper;
    var a, b :| 0 <= a < b < SLNODES && t.kids[a] != Empty && t.kids[b] != Empty;
    var kids := t.kids[i := Empty];
    assert kids[a] != Empty || kids[b] != Empty;
  }

  lemma SoleHas(t: Tree, j: int, y: Item)
    requires t.Node? && 0 <= j < |t.kids| && (forall c | 0 <= c < |t.kids| && c != j :: t.kids[c] == Empty)
    ensures Has(t, y) <==> Has(t.kids[j], y)
  {
  }

  lemma DropLeaf(t: Tree, i: int, x: Item)
    requires WF(t) && t.Node? && 0 <= i < SLNODES && t.kids[i] == Leaf(x)
    ensures var m := Collapse(t.(kids := t.kids[i := Empty]));
            && WF(m) && m != Empty && (m.Node? ==> Pos(m.byte, m.bit) >= Pos(t.byte, t.bit))
            && forall y :: Has(m, y) <==> Has(t, y) && y != x
  {
    hide Agree, Fits, Prefixed, Placed, Forked, Has;
    var u := t.(kids := t.kids[i := Empty]);
    var j := FirstKid(u.kids, 0);
    SomeKidStays(t, i);
    var l, m := FirstKid(u.kids, j + 1), Collapse(u);
    if l < SLNODES {
      DropForked(t, i, x, j, l);
    }
    forall y ensures Has(m, y) <==> Has(t, y) && y != x {
      DropHas(t, i, x, y);
      if l == SLNODES {
        SoleHas(u, j, y);
      }
    }
  }

  /** Removal keeps the tree well formed and deletes exactly the given key. */
  lemma {:induction false} RemoveWF(t: Tree, x: Item)
    requires WF(t) && Has(t, x)
    ensures var m := RemoveKey(t, x.key);
            && WF(m) && (t.Node? ==> m != Empty && (m.Node? ==> Pos(m.byte, m.bit) >= Pos(t.byte, t.bit)))
            && forall y :: Has(m, y) <==> Has(t, y) && y != x
    decreases t
  {
    match t
    case Leaf(_) =>
    case Node(_, byte, bit, kids) =>
      var i := SliceIndex(x.key[byte], bit);
      assert Has(kids[i], x);
      if kids[i].Leaf? {
        DropLeaf(t, i, x);
      } else {
        RemoveWF(kids[i], x);
        var k := RemoveKey(kids[i], x.key);
        FitsStored(t, i, x);
        assert Deeper(Pos(byte, bit), kids);
        hide Agree, Placed, Prefixed, Forked, Fits;
        ReplaceKid(byte, bit, kids, i, k, x);
        forall y ensures Has(t.(kids := kids[i := k]), y) <==> Has(t, y) && y != x { RemovedKid(t, i, k, x, y); }
      }
  }

  // ---------- canonical form

  /** Equal but for the addresses of the nodes. */
  ghost predicate SameShape(t: Tree, u: Tree) {
    match t
    case Empty => u == Empty
    case Leaf(_) => u == t
    case Node(_, byte, bit, kids) =>
      && u.Node? && u.byte == byte && u.bit == bit && |u.kids| == |kids|
      && forall i | 0 <= i < |kids| :: SameShape(kids[i], u.kids[i])
  }

  lemma TwoKeys(t: Tree) returns (x: Item, y: Item)
    requires WF(t) && t.Node?
    ensures Has(t, x) && Has(t, y) && t.byte < |x.key| && t.byte < |y.key|
    ensures SliceIndex(x.key[t.byte], t.bit) != SliceIndex(y.key[t.byte], t.bit)
  {
    var i, j :| 0 <= i < j < |t.kids| && t.kids[i] != Empty && t.kids[j] != Empty;
    x, y := AnyLeaf(t.kids[i]), AnyLeaf(t.kids[j]);
  }

  lemma NotDeeper(t: Tree, u: Tree)
    requires WF(t) && WF(u) && t.Node? && u.Node? && forall x | Has(t, x) :: Has(u, x)
    ensures Pos(u.byte, u.bit) <= Pos(t.byte, t.bit)
  {
    var x, y := TwoKeys(t);
    SamePrefix(u, x, y);
    NibIsSlice(x.key, t.byte, t.bit);
    NibIsSlice(y.key, t.byte, t.bit);
  }

  lemma KidHas(t: Tree, i: int, x: Item)
    requires WF(t) && t.Node? && 0 <= i < SLNODES
    ensures Has(t.kids[i], x) <==> Has(t, x) && t.byte < |x.key| && SliceIndex(x.key[t.byte], t.bit) == i
  {
  }

  lemma SameKind(t: Tree, u: Tree)
    requires WF(t) && WF(u) && (forall x :: Has(t, x) <==> Has(u, x))
    ensures t.Empty? == u.Empty? && t.Leaf? == u.Leaf?
  {
    if t != Empty { assert Has(t, AnyLeaf(t)); }
    if u != Empty { assert Has(u, AnyLeaf(u)); }
    if t.Node? { var x, y := TwoKeys(t); }
    if u.Node? { var x, y := TwoKeys(u); }
  }

  /** Two well-formed trees with the same keys have the same shape, whatever their histories. */
  lemma {:induction false} Canonical(t: Tree, u: Tree)
    requires WF(t) && WF(u) && (forall x :: Has(t, x) <==> Has(u, x))
    ensures SameShape(t, u)
  {
    SameKind(t, u);
    match t
    case Empty =>
    case Leaf(item) =>
      assert Has(u, item);
    case Node(_, byte, bit, kids) =>
      NotDeeper(t, u);
      NotDeeper(u, t);
      forall i | 0 <= i < SLNODES ensures SameShape(kids[i], u.kids[i]) {
        forall x ensures Has(kids[i], x) <==> Has(u.kids[i], x) {
          KidHas(t, i, x);
          KidHas(u, i, x);
        }
        Canonical(kids[i], u.kids[i]);
      }
  }

  /** Removing a freshly inserted key restores the earlier tree. */
  lemma InsertThenRemove(t: Tree, nk: Item, x: Item, byte: int, bit: int, addr: int)
    requires WF(t) && Has(t, nk) && Diverge(nk.key, x.key, byte, bit)
    requires forall y | Has(t, y) :: !Agree(y.key, x.key, Pos(byte, bit) + 1)
    ensures WF(InsertAt(t, nk.key, x, byte, bit, addr))
    ensures SameShape(RemoveKey(InsertAt(t, nk.key, x, byte, bit, addr), x.key), t)
  {
    InsertWF(t, nk, x, byte, bit, addr);
    var m := InsertAt(t, nk.key, x, byte, bit, addr);
    RemoveWF(m, x);
    assert !Has(t, x) by {
      assert Agree(x.key, x.key, Pos(byte, bit) + 1);
    }
    Canonical(RemoveKey(m, x.key), t);
  }

  // ---------- sizes

  function LeafCount(t: Tree): nat
    decreases t, 1
  {
    match t
    case Empty => 0
    case Leaf(_) => 1
    case Node(_, _, _, kids) => LeafCounts(kids)
  }

  function LeafCounts(kids: seq<Tree>): nat
    decreases kids, 0
  {
    if kids == [] then 0 else LeafCount(kids[0]) + LeafCounts(kids[1..])
  }

  function NodeCount(t: Tree): nat
    decreases t, 1
  {
    if t.Node? then 1 + NodeCounts(t.kids) else 0
  }

  function NodeCounts(kids: seq<Tree>): nat
    decreases kids, 0
  {
    if kids == [] then 0 else NodeCount(kids[0]) + NodeCounts(kids[1..])
  }

  lemma {:induction false} CountsReplace(kids: seq<Tree>, i: int, k: Tree)
    requires 0 <= i < |kids|
    ensures LeafCounts(kids[i := k]) == LeafCounts(kids) - LeafCount(kids[i]) + LeafCount(k)
    ensures NodeCounts(kids[i := k]) == NodeCounts(kids) - NodeCount(kids[i]) + NodeCount(k)
  {
    var ks := kids[i := k];
    if i == 0 {
      assert ks[1..] == kids[1..];
    } else {
      CountsReplace(kids[1..], i - 1, k);
      assert ks[1..] == kids[1..][i - 1 := k];
    }
  }

  function Occupied(kids: seq<Tree>): nat {
    if kids == [] then 0 else (if kids[0] == Empty then 0 else 1) + Occupied(kids[1..])
  }

  lemma {:induction false} OccupiedTwo(kids: seq<Tree>, i: int, j: int)
    requires 0 <= i < j < |kids| && kids[i] != Empty && kids[j] != Empty
    ensures Occupied(kids) >= 2
  {
    if i > 0 {
      OccupiedTwo(kids[1..], i - 1, j - 1);
    } else {
      OccupiedOne(kids[1..], j - 1);
    }
  }

  lemma {:induction false} OccupiedOne(kids: seq<Tree>, j: int)
    requires 0 <= j < |kids| && kids[j] != Empty
    ensures Occupied(kids) >= 1
  {
    if j > 0 {
      OccupiedOne(kids[1..], j - 1);
    }
  }

  /** There are fewer inner nodes than leaves. */
  lemma {:induction false} FewNodes(t: Tree)
    requires WF(t)
    ensures t == Empty ==> NodeCount(t) == LeafCount(t) == 0
    ensures t != Empty ==> NodeCount(t) < LeafCount(t)
    decreases t, 1
  {
    if t.Node? {
      FewNodesIn(t.kids);
      var i, j :| 0 <= i < j < |t.kids| && t.kids[i] != Empty && t.kids[j] != Empty;
      OccupiedTwo(t.kids, i, j);
    }
  }

  lemma {:induction false} FewNodesIn(kids: seq<Tree>)
    requires forall i | 0 <= i < |kids| :: WF(kids[i])
    ensures NodeCounts(kids) + Occupied(kids) <= LeafCounts(kids)
    decreases kids, 0
  {
    if kids != [] {
      FewNodes(kids[0]);
      FewNodesIn(kids[1..]);
    }
  }

  lemma {:induction false} CountsEmpty(kids: seq<Tree>)
    requires forall i | 0 <= i < |kids| :: kids[i] == Empty
    ensures LeafCounts(kids) == 0 && NodeCounts(kids) == 0
  {
    if kids != [] {
      CountsEmpty(kids[1..]);
    }
  }

  lemma ForkCounts(t: Tree, nk: Key, x: Item, byte: int, bit: int, addr: int)
    requires 0 <= byte < |nk| && byte < |x.key| && SliceIndex(nk[byte], bit) != SliceIndex(x.key[byte], bit)
    ensures LeafCount(Fork(t, nk, x, byte, bit, addr)) == LeafCount(t) + 1
    ensures NodeCount(Fork(t, nk, x, byte, bit, addr)) == NodeCount(t) + 1
  {
    hide NoKids;
    var i, j := SliceIndex(nk[byte], bit), SliceIndex(x.key[byte], bit);
    CountsEmpty(NoKids());
    CountsReplace(NoKids(), i, t);
    CountsReplace(NoKids()[i := t], j, Leaf(x));
  }

  /** Removing the last-but-one child of a node removes the node with it. */
  lemma {:induction false} CollapseCounts(t: Tree)
    requires t.Node?
    ensures LeafCount(Collapse(t)) == LeafCount(t)
    ensures Collapse(t) == t || NodeCount(Collapse(t)) == NodeCount(t) - 1
  {
    var i := FirstKid(t.kids, 0);
    if i < |t.kids| && FirstKid(t.kids, i + 1) == |t.kids| {
      SoleCounts(t.kids, i);
    }
  }

  lemma {:induction false} SoleCounts(kids: seq<Tree>, i: int)
    requires 0 <= i < |kids| && forall j | 0 <= j < |kids| && j != i :: kids[j] == Empty
    ensures LeafCounts(kids) == LeafCount(kids[i]) && NodeCounts(kids) == NodeCount(kids[i])
  {
    var z := kids[i := Empty];
    CountsEmpty(z);
    CountsReplace(z, i, kids[i]);
    assert z[i := kids[i]] == kids;
  }
}
