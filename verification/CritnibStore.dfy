/** Nodes in memory, reached by pointers, and what overwriting one pointer does to the tree they form. */
module CritnibStore {
  import opened Bytes
  import opened CritnibTree

  /** A tagged pointer: NULL, a leaf, or an inner node. */
  datatype Ref = Null | LeafRef(item: Item) | NodeRef(addr: int)

  datatype Cell = Cell(byte: int, bit: int, child: seq<Ref>)

  /** A place that holds a pointer: the root field, or one child field of a node. */
  datatype Slot = RootSlot | ChildSlot(addr: int, i: int)

  type Store = map<int, Cell>

  ghost predicate Rep(nodes: Store, r: Ref, t: Tree)
    decreases t
  {
    match t
    case Empty => r == Null
    case Leaf(item) => r == LeafRef(item)
    case Node(addr, byte, bit, kids) =>
      && r == NodeRef(addr) && addr in nodes && nodes[addr].byte == byte && nodes[addr].bit == bit
      && |nodes[addr].child| == |kids| == SLNODES
      && forall i | 0 <= i < |kids| :: Rep(nodes, nodes[addr].child[i], kids[i])
  }

  ghost predicate InTree(t: Tree, a: int) {
    t.Node? && (t.addr == a || exists i | 0 <= i < |t.kids| :: InTree(t.kids[i], a))
  }

  /** No node is reached twice. */
  ghost predicate NoAlias(t: Tree) {
    t.Node? ==>
      && (forall i | 0 <= i < |t.kids| :: NoAlias(t.kids[i]) && !InTree(t.kids[i], t.addr))
      && (forall i, j, a {:trigger InTree(t.kids[i], a), InTree(t.kids[j], a)}
            | 0 <= i < |t.kids| && 0 <= j < |t.kids| && InTree(t.kids[i], a) && InTree(t.kids[j], a) :: i == j)
  }

  /** Writes outside a tree do not change it. */
  lemma {:induction false} Frame(nodes: Store, nodes': Store, r: Ref, t: Tree)
    requires Rep(nodes, r, t)
    requires forall a | InTree(t, a) && a in nodes :: a in nodes' && nodes'[a] == nodes[a]
    ensures Rep(nodes', r, t)
    decreases t
  {
    if t.Node? {
      assert InTree(t, t.addr);
      forall i | 0 <= i < |t.kids| ensures Rep(nodes', nodes[t.addr].child[i], t.kids[i]) {
        forall a | InTree(t.kids[i], a) && a in nodes ensures a in nodes' && nodes'[a] == nodes[a] {
          assert InTree(t, a);
        }
        Frame(nodes, nodes', nodes[t.addr].child[i], t.kids[i]);
      }
    }
  }

  function SetChild(nodes: Store, a: int, i: int, r: Ref): Store
    requires a in nodes && 0 <= i < |nodes[a].child|
  {
    nodes[a := nodes[a].(child := nodes[a].child[i := r])]
  }

  /** Overwriting child `i` of the top node, where nothing else changes that the other children can see. */
  lemma RepReplace(nodes: Store, nodes': Store, t: Tree, i: int, r: Ref, k: Tree)
    requires t.Node? && Rep(nodes, NodeRef(t.addr), t) && NoAlias(t) && 0 <= i < SLNODES
    requires t.addr in nodes' && nodes'[t.addr] == nodes[t.addr].(child := nodes[t.addr].child[i := r])
    requires Rep(nodes', r, k)
    requires forall j, a {:trigger InTree(t.kids[j], a)} | 0 <= j < SLNODES && j != i && InTree(t.kids[j], a) && a in nodes ::
               a in nodes' && nodes'[a] == nodes[a]
    ensures Rep(nodes', NodeRef(t.addr), t.(kids := t.kids[i := k]))
  {
    forall j | 0 <= j < SLNODES && j != i ensures Rep(nodes', nodes[t.addr].child[j], t.kids[j]) {
      Frame(nodes, nodes', nodes[t.addr].child[j], t.kids[j]);
    }
  }

  lemma {:induction false} AliasReplace(t: Tree, i: int, k: Tree, fresh': int)
    requires t.Node? && NoAlias(t) && 0 <= i < |t.kids| && NoAlias(k) && !InTree(t, fresh')
    requires forall a | InTree(k, a) :: InTree(t.kids[i], a) || a == fresh'
    ensures NoAlias(t.(kids := t.kids[i := k]))
    ensures forall a | InTree(t.(kids := t.kids[i := k]), a) :: InTree(t, a) || a == fresh'
  {
    var m := t.(kids := t.kids[i := k]);
    assert InTree(t, t.addr);
    forall j, a | 0 <= j < |t.kids| && InTree(m.kids[j], a) ensures InTree(t.kids[j], a) || (j == i && a == fresh') {}
    forall j | 0 <= j < |t.kids| ensures NoAlias(m.kids[j]) && !InTree(m.kids[j], t.addr) {}
  }

  // ---------- the second descent of an insertion

  /** Whether the second descent goes on below `t`. */
  predicate GoesOn(t: Tree, key: Key, byte: int, bit: int) {
    t.Node? && !Stops(t, byte, bit) && 0 <= t.byte < |key| && |t.kids| == SLNODES
  }

  function Next(t: Tree, key: Key): int
    requires t.Node? && 0 <= t.byte < |key|
  {
    SliceIndex(key[t.byte], t.bit)
  }

  /** The place where the second descent ends, and the subtree it points to. */
  function EndSlot(t: Tree, s: Slot, key: Key, byte: int, bit: int): Slot
    decreases t
  {
    if GoesOn(t, key, byte, bit)
    then EndSlot(t.kids[Next(t, key)], ChildSlot(t.addr, Next(t, key)), key, byte, bit)
    else s
  }

  function EndTree(t: Tree, key: Key, byte: int, bit: int): Tree {
    if GoesOn(t, key, byte, bit) then EndTree(t.kids[Next(t, key)], key, byte, bit) else t
  }

  lemma {:induction false} EndSlotInside(t: Tree, s: Slot, key: Key, byte: int, bit: int)
    requires GoesOn(t, key, byte, bit)
    ensures var e := EndSlot(t, s, key, byte, bit); e.ChildSlot? && InTree(t, e.addr) && 0 <= e.i < SLNODES
    decreases t
  {
    var k := t.kids[Next(t, key)];
    if GoesOn(k, key, byte, bit) {
      EndSlotInside(k, ChildSlot(t.addr, Next(t, key)), key, byte, bit);
    }
  }

  /** Memory after the insertion: the new node, if any, and the overwritten child field. */
  ghost predicate Inserted(nodes: Store, nodes': Store, e: Slot, old': Ref, u: Tree, nk: Key, x: Item,
                           byte: int, bit: int, addr: int)
    requires 0 <= byte < |nk| && byte < |x.key|
  {
    && e.ChildSlot? && e.addr in nodes && 0 <= e.i < |nodes[e.addr].child| && e.addr != addr
    && e.addr in nodes'
    && nodes'[e.addr] == nodes[e.addr].(child := nodes[e.addr].child[e.i := NewRef(u, x, addr)])
    && (u != Empty ==> addr in nodes' && nodes'[addr] == ForkCell(old', nk, x, byte, bit))
    && (forall a | a in nodes && a != e.addr && a != addr :: a in nodes' && nodes'[a] == nodes[a])
  }

  function NewRef(u: Tree, x: Item, addr: int): Ref {
    if u == Empty then LeafRef(x) else NodeRef(addr)
  }

  function NoChild(): (s: seq<Ref>)
    ensures |s| == SLNODES && forall i | 0 <= i < |s| :: s[i] == Null
  {
    [Null, Null, Null, Null, Null, Null, Null, Null, Null, Null, Null, Null, Null, Null, Null, Null]
  }

  function ForkCell(r: Ref, nk: Key, x: Item, byte: int, bit: int): Cell
    requires 0 <= byte < |nk| && byte < |x.key|
  {
    Cell(byte, bit, NoChild()[SliceIndex(nk[byte], bit) := r][SliceIndex(x.key[byte], bit) := LeafRef(x)])
  }

  lemma ForkRep(nodes: Store, r: Ref, t: Tree, nk: Key, x: Item, byte: int, bit: int, addr: int)
    requires Rep(nodes, r, t) && 0 <= byte < |nk| && byte < |x.key|
    requires addr in nodes && nodes[addr] == ForkCell(r, nk, x, byte, bit)
    ensures Rep(nodes, NodeRef(addr), Fork(t, nk, x, byte, bit, addr))
  {
    hide NoKids, NoChild;
    var f := Fork(t, nk, x, byte, bit, addr);
    forall i | 0 <= i < SLNODES ensures Rep(nodes, nodes[addr].child[i], f.kids[i]) {}
  }

  lemma ForkAlias(t: Tree, nk: Key, x: Item, byte: int, bit: int, addr: int)
    requires 0 <= byte < |nk| && byte < |x.key| && NoAlias(t) && !InTree(t, addr)
    ensures NoAlias(Fork(t, nk, x, byte, bit, addr))
    ensures forall a | InTree(Fork(t, nk, x, byte, bit, addr), a) :: InTree(t, a) || a == addr
  {
    hide NoKids;
    var f := Fork(t, nk, x, byte, bit, addr);
    forall i, a | 0 <= i < SLNODES && InTree(f.kids[i], a)
      ensures i == SliceIndex(nk[byte], bit) && InTree(t, a) {}
    forall i | 0 <= i < SLNODES ensures NoAlias(f.kids[i]) {}
  }

  /** The insertion at the place where the descent ends. */
  lemma InsertAtEnd(nodes: Store, nodes': Store, r: Ref, u: Tree, nk: Key, x: Item, byte: int, bit: int, addr: int)
    requires WF(u) && Rep(nodes, r, u) && NoAlias(u) && !InTree(u, addr)
    requires 0 <= byte < |nk| && byte < |x.key| && !GoesOn(u, x.key, byte, bit)
    requires u != Empty ==> addr in nodes' && nodes'[addr] == ForkCell(r, nk, x, byte, bit)
    requires forall a | InTree(u, a) && a in nodes :: a in nodes' && nodes'[a] == nodes[a]
    ensures Rep(nodes', NewRef(u, x, addr), InsertAt(u, nk, x, byte, bit, addr))
    ensures NoAlias(InsertAt(u, nk, x, byte, bit, addr))
    ensures forall a | InTree(InsertAt(u, nk, x, byte, bit, addr), a) :: InTree(u, a) || a == addr
  {
    if u != Empty {
      hide ForkCell, Fork;
      assert Stops(u, byte, bit);
      Frame(nodes, nodes', r, u);
      ForkRep(nodes', r, u, nk, x, byte, bit, addr);
      ForkAlias(u, nk, x, byte, bit, addr);
    }
  }

  /** Overwriting one pointer, and perhaps adding one node, performs the insertion. */
  lemma {:induction false} InsertRep(nodes: Store, nodes': Store, t: Tree, s: Slot, nk: Key, x: Item,
                                     byte: int, bit: int, addr: int)
    requires WF(t) && t.Node? && Rep(nodes, NodeRef(t.addr), t) && NoAlias(t) && !InTree(t, addr)
    requires 0 <= byte < |nk| && byte < |x.key| && GoesOn(t, x.key, byte, bit)
    requires var e := EndSlot(t, s, x.key, byte, bit);
             && e.ChildSlot? && e.addr in nodes && 0 <= e.i < |nodes[e.addr].child|
             && Inserted(nodes, nodes', e, nodes[e.addr].child[e.i], EndTree(t, x.key, byte, bit), nk, x, byte, bit, addr)
    ensures Rep(nodes', NodeRef(t.addr), InsertAt(t, nk, x, byte, bit, addr))
    ensures NoAlias(InsertAt(t, nk, x, byte, bit, addr))
    ensures forall a | InTree(InsertAt(t, nk, x, byte, bit, addr), a) :: InTree(t, a) || a == addr
    decreases t
  {
    hide Placed, Prefixed, Forked, Deeper, ForkCell, Fork;
    var i := Next(t, x.key);
    var k, r := t.kids[i], nodes[t.addr].child[i];
    assert Rep(nodes, r, k);
    assert InTree(t, t.addr);
    assert forall a | InTree(k, a) :: InTree(t, a);
    var e := EndSlot(t, s, x.key, byte, bit);
    var k' := InsertAt(k, nk, x, byte, bit, addr);
    if GoesOn(k, x.key, byte, bit) {
      EndSlotInside(k, ChildSlot(t.addr, i), x.key, byte, bit);
      InsertRep(nodes, nodes', k, ChildSlot(t.addr, i), nk, x, byte, bit, addr);
      RepReplace(nodes, nodes', t, i, r, k');
    } else {
      assert EndTree(k, x.key, byte, bit) == k && e == ChildSlot(t.addr, i);
      InsertAtEnd(nodes, nodes', r, k, nk, x, byte, bit, addr);
      RepReplace(nodes, nodes', t, i, NewRef(k, x, addr), k');
    }
    AliasReplace(t, i, k', addr);
  }

  lemma {:induction false} InsertCounts(t: Tree, nk: Key, x: Item, byte: int, bit: int, addr: int)
    requires WF(t) && 0 <= byte < |nk| && byte < |x.key| && SliceIndex(nk[byte], bit) != SliceIndex(x.key[byte], bit)
    ensures var m := InsertAt(t, nk, x, byte, bit, addr);
            && LeafCount(m) == LeafCount(t) + 1
            && NodeCount(m) == NodeCount(t) + if EndTree(t, x.key, byte, bit) == Empty then 0 else 1
    decreases t
  {
    if GoesOn(t, x.key, byte, bit) {
      var i := Next(t, x.key);
      InsertCounts(t.kids[i], nk, x, byte, bit, addr);
      CountsReplace(t.kids, i, InsertAt(t.kids[i], nk, x, byte, bit, addr));
    } else if t != Empty {
      assert Stops(t, byte, bit);
      hide Fork;
      ForkCounts(t, nk, x, byte, bit, addr);
    }
  }

  // ---------- removal

  predicate AboveNode(t: Tree, key: Key) {
    t.Node? && 0 <= t.byte < |key| && |t.kids| == SLNODES && t.kids[Next(t, key)].Node?
  }

  /** The place that points to the leaf's parent, and that parent. */
  function ParentSlot(t: Tree, s: Slot, key: Key): Slot
    decreases t
  {
    if AboveNode(t, key) then ParentSlot(t.kids[Next(t, key)], ChildSlot(t.addr, Next(t, key)), key) else s
  }

  function ParentTree(t: Tree, key: Key): Tree {
    if AboveNode(t, key) then ParentTree(t.kids[Next(t, key)], key) else t
  }

  lemma {:induction false} ParentInside(t: Tree, s: Slot, key: Key)
    requires AboveNode(t, key)
    ensures var e := ParentSlot(t, s, key);
            && e.ChildSlot? && InTree(t, e.addr) && 0 <= e.i < SLNODES
            && ParentTree(t, key).Node? && InTree(t.kids[Next(t, key)], ParentTree(t, key).addr)
    decreases t
  {
    var k := t.kids[Next(t, key)];
    if AboveNode(k, key) {
      ParentInside(k, ChildSlot(t.addr, Next(t, key)), key);
    }
  }

  function FirstChild(child: seq<Ref>, from: int): (i: int)
    requires 0 <= from <= |child|
    ensures from <= i <= |child|
    ensures forall j | from <= j < i :: child[j] == Null
    ensures i < |child| ==> child[i] != Null
    decreases |child| - from
  {
    if from == |child| || child[from] != Null then from else FirstChild(child, from + 1)
  }

  /** What the pointer to a node becomes once one of its children is gone. */
  function Shortened(addr: int, child: seq<Ref>): Ref {
    var i := FirstChild(child, 0);
    if i < |child| && FirstChild(child, i + 1) == |child| then child[i] else NodeRef(addr)
  }

  lemma {:induction false} SameFirst(nodes: Store, child: seq<Ref>, kids: seq<Tree>, from: int)
    requires |child| == |kids| && 0 <= from <= |kids|
    requires forall i | 0 <= i < |kids| :: Rep(nodes, child[i], kids[i])
    ensures FirstChild(child, from) == FirstKid(kids, from)
    decreases |kids| - from
  {
    if from < |kids| {
      assert Rep(nodes, child[from], kids[from]);
      SameFirst(nodes, child, kids, from + 1);
    }
  }

  ghost predicate Removed(nodes: Store, nodes': Store, e: Slot, p: Tree, i: int)
    requires p.Node?
  {
    && p.addr in nodes && 0 <= i < |nodes[p.addr].child|
    && var child := nodes[p.addr].child[i := Null];
       var r := Shortened(p.addr, child);
       && (r == NodeRef(p.addr) ==> p.addr in nodes' && nodes'[p.addr] == nodes[p.addr].(child := child))
       && (e.ChildSlot? ==>
             && e.addr in nodes && 0 <= e.i < |nodes[e.addr].child| && e.addr in nodes'
             && nodes'[e.addr] == nodes[e.addr].(child := nodes[e.addr].child[e.i := r]))
       && (forall a | a in nodes && a != p.addr && (e.ChildSlot? ==> a != e.addr) :: a in nodes' && nodes'[a] == nodes[a])
  }

  /** Counting the child pointers decides correctly whether the node is to be dropped. */
  lemma ShortenedIsCollapse(nodes: Store, q: Tree, child: seq<Ref>) returns (j: int)
    requires q.Node? && |child| == |q.kids| && forall i | 0 <= i < |child| :: Rep(nodes, child[i], q.kids[i])
    requires forall i | 0 <= i < |child| :: !InTree(q.kids[i], q.addr)
    ensures Shortened(q.addr, child) == NodeRef(q.addr) <==> Collapse(q) == q
    ensures Collapse(q) != q ==> 0 <= j < |child| && Collapse(q) == q.kids[j] && Shortened(q.addr, child) == child[j]
  {
    j := FirstKid(q.kids, 0);
    SameFirst(nodes, child, q.kids, 0);
    if j < |child| {
      SameFirst(nodes, child, q.kids, j + 1);
      assert Rep(nodes, child[j], q.kids[j]);
      assert !InTree(q.kids[j], q.addr);
      assert q.kids[j] != q;
    }
  }

  /** At the leaf's parent: the child field is cleared, and the node is dropped if one child is left. */
  lemma RemoveAtParent(nodes: Store, nodes': Store, p: Tree, i: int, x: Item)
    requires p.Node? && |p.kids| == SLNODES && Rep(nodes, NodeRef(p.addr), p) && NoAlias(p)
    requires 0 <= i < SLNODES && p.kids[i] == Leaf(x)
    requires var child := nodes[p.addr].child[i := Null];
             Shortened(p.addr, child) == NodeRef(p.addr) ==>
               p.addr in nodes' && nodes'[p.addr] == nodes[p.addr].(child := child)
    requires forall a | InTree(p, a) && a != p.addr && a in nodes :: a in nodes' && nodes'[a] == nodes[a]
    ensures var q, r := p.(kids := p.kids[i := Empty]), Shortened(p.addr, nodes[p.addr].child[i := Null]);
            && Rep(nodes', r, Collapse(q))
            && NoAlias(Collapse(q)) && (forall a | InTree(Collapse(q), a) :: InTree(p, a))
            && (r == NodeRef(p.addr) <==> Collapse(q) == q)
  {
    var q := p.(kids := p.kids[i := Empty]);
    var child := nodes[p.addr].child[i := Null];
    forall j | 0 <= j < SLNODES ensures Rep(nodes, child[j], q.kids[j]) && !InTree(q.kids[j], q.addr) {
      assert Rep(nodes, nodes[p.addr].child[j], p.kids[j]);
    }
    hide Shortened, Collapse;
    var j := ShortenedIsCollapse(nodes, q, child);
    assert forall j, a | 0 <= j < SLNODES && InTree(p.kids[j], a) :: InTree(p, a);
    if Collapse(q) == q {
      RepReplace(nodes, nodes', p, i, Null, Empty);
      AliasDrop(p, i);
    } else {
      assert j != i ==> q.kids[j] == p.kids[j];
      Frame(nodes, nodes', child[j], q.kids[j]);
    }
  }

  lemma AliasDrop(t: Tree, i: int)
    requires t.Node? && NoAlias(t) && 0 <= i < |t.kids|
    ensures NoAlias(t.(kids := t.kids[i := Empty]))
    ensures forall a | InTree(t.(kids := t.kids[i := Empty]), a) :: InTree(t, a)
  {
    var m := t.(kids := t.kids[i := Empty]);
    forall j, a | 0 <= j < |t.kids| && InTree(m.kids[j], a) ensures InTree(t.kids[j], a) {}
    forall j | 0 <= j < |t.kids| ensures NoAlias(m.kids[j]) && !InTree(m.kids[j], t.addr) {}
  }

  lemma StoredBelow(t: Tree, x: Item)
    requires WF(t) && t.Node? && Has(t, x)
    ensures 0 <= t.byte < |x.key| && |t.kids| == SLNODES && Has(t.kids[Next(t, x.key)], x)
    ensures AboveNode(t, x.key) || t.kids[Next(t, x.key)] == Leaf(x)
  {
  }

  lemma {:induction false} ParentStored(t: Tree, x: Item)
    requires WF(t) && t.Node? && Has(t, x)
    ensures var p := ParentTree(t, x.key);
            && p.Node? && WF(p) && Has(p, x) && 0 <= p.byte < |x.key| && |p.kids| == SLNODES
            && p.kids[Next(p, x.key)] == Leaf(x)
    decreases t
  {
    StoredBelow(t, x);
    if AboveNode(t, x.key) {
      ParentStored(t.kids[Next(t, x.key)], x);
    }
  }

  lemma RemoveJustBelow(nodes: Store, nodes': Store, t: Tree, i: int, x: Item)
    requires t.Node? && Rep(nodes, NodeRef(t.addr), t) && NoAlias(t) && 0 <= i < SLNODES
    requires WF(t.kids[i]) && t.kids[i].Node? && Has(t.kids[i], x) && !AboveNode(t.kids[i], x.key)
    requires 0 <= t.kids[i].byte < |x.key|
    requires Removed(nodes, nodes', ChildSlot(t.addr, i), t.kids[i], Next(t.kids[i], x.key))
    ensures var k' := RemoveKey(t.kids[i], x.key);
            && Rep(nodes', NodeRef(t.addr), t.(kids := t.kids[i := k'])) && NoAlias(k')
            && forall a | InTree(k', a) :: InTree(t.kids[i], a)
  {
    var k := t.kids[i];
    StoredBelow(k, x);
    hide WF, Shortened, Collapse;
    assert Rep(nodes, nodes[t.addr].child[i], k);
    assert InTree(k, k.addr);
    RemoveAtParent(nodes, nodes', k, Next(k, x.key), x);
    RepReplace(nodes, nodes', t, i, Shortened(k.addr, nodes[k.addr].child[Next(k, x.key) := Null]), RemoveKey(k, x.key));
  }

  /** Clearing one pointer, and perhaps shortening one edge, performs the removal. */
  lemma {:induction false} RemoveRep(nodes: Store, nodes': Store, t: Tree, s: Slot, x: Item, unused: int)
    requires WF(t) && t.Node? && Has(t, x) && AboveNode(t, x.key) && !InTree(t, unused)
    requires Rep(nodes, NodeRef(t.addr), t) && NoAlias(t)
    requires ParentTree(t, x.key).Node? && 0 <= ParentTree(t, x.key).byte < |x.key|
    requires Removed(nodes, nodes', ParentSlot(t, s, x.key), ParentTree(t, x.key), Next(ParentTree(t, x.key), x.key))
    ensures Rep(nodes', NodeRef(t.addr), RemoveKey(t, x.key)) && NoAlias(RemoveKey(t, x.key))
    ensures forall a | InTree(RemoveKey(t, x.key), a) :: InTree(t, a)
    decreases t
  {
    hide NodeOk, Shortened, Collapse, Agree;
    StoredBelow(t, x);
    var i := Next(t, x.key);
    var k, r := t.kids[i], nodes[t.addr].child[i];
    if AboveNode(k, x.key) {
      assert Rep(nodes, r, k);
      ParentInside(k, ChildSlot(t.addr, i), x.key);
      assert InTree(k, ParentTree(k, x.key).addr);
      assert forall a | InTree(k, a) :: InTree(t, a);
      RemoveRep(nodes, nodes', k, ChildSlot(t.addr, i), x, unused);
      RepReplace(nodes, nodes', t, i, r, RemoveKey(k, x.key));
    } else {
      assert ParentTree(k, x.key) == k;
      RemoveJustBelow(nodes, nodes', t, i, x);
    }
    AliasReplace(t, i, RemoveKey(k, x.key), unused);
  }

  lemma {:induction false} RemoveCounts(t: Tree, x: Item)
    requires WF(t) && t.Node? && Has(t, x)
    ensures ParentTree(t, x.key).Node? && 0 <= ParentTree(t, x.key).byte < |x.key|
    ensures |ParentTree(t, x.key).kids| == SLNODES
    ensures var m, p := RemoveKey(t, x.key), ParentTree(t, x.key);
            var q := p.(kids := p.kids[Next(p, x.key) := Empty]);
            && LeafCount(m) == LeafCount(t) - 1
            && NodeCount(m) == NodeCount(t) - if Collapse(q) == q then 0 else 1
    decreases t
  {
    hide NodeOk, Collapse;
    StoredBelow(t, x);
    var i := Next(t, x.key);
    if AboveNode(t, x.key) {
      RemoveCounts(t.kids[i], x);
      CountsReplace(t.kids, i, RemoveKey(t.kids[i], x.key));
    } else {
      CountsReplace(t.kids, i, Empty);
      CollapseCounts(t.(kids := t.kids[i := Empty]));
    }
  }
}
