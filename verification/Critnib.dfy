/** The crit-nib index: a 16-way radix tree updated in place, which is exactly a finite map. */
module Critnib {
  import opened Bytes
  import opened CritnibTree
  import opened CritnibStore

  const EEXIST := 17

  /** Of two different keys neither is a prefix of the other. */
  ghost predicate PrefixFree(k: Key, m: Key) {
    k != m ==> exists i | 0 <= i < |k| && i < |m| :: k[i] != m[i]
  }

  // ---------- the divergence point within a byte

  function Xor(a: int, b: int): (c: int)
    requires 0 <= a && 0 <= b
    ensures 0 <= c && (c == 0 <==> a == b)
    decreases a + b
  {
    if a == 0 && b == 0 then 0 else 2 * Xor(a / 2, b / 2) + (a + b) % 2
  }

  /** The index of the most significant set bit. */
  function Mssb(v: int): int
    requires 0 < v
  {
    if v < 2 then 0 else 1 + Mssb(v / 2)
  }

  function Shift(at: int): int
    requires 0 < at
  {
    Mssb(at) / SLICE * SLICE
  }

  lemma XorHalf(a: int, b: int)
    requires 0 <= a && 0 <= b
    ensures Xor(a, b) / 2 == Xor(a / 2, b / 2)
  {
  }

  lemma XorHigh(a: byte, b: byte)
    ensures Xor(a, b) / 16 == Xor(a / 16, b / 16)
  {
    XorHalf(a, b);
    XorHalf(a / 2, b / 2);
    XorHalf(a / 4, b / 4);
    XorHalf(a / 8, b / 8);
    hide Xor;
    assert Xor(a, b) / 4 == Xor(a / 4, b / 4) by { assert a / 2 / 2 == a / 4 && b / 2 / 2 == b / 4; }
    assert Xor(a / 4, b / 4) / 4 == Xor(a / 16, b / 16) by {
      assert a / 4 / 2 == a / 8 && a / 8 / 2 == a / 16 && b / 4 / 2 == b / 8 && b / 8 / 2 == b / 16;
    }
  }

  lemma XorSmall(a: int, b: int)
    requires 0 <= a < 256 && 0 <= b < 256
    ensures Xor(a, b) < 256
  {
    XorHigh(a, b);
    XorHigh(a / 16, b / 16);
  }

  /** The shift is 4 if the high nibbles differ and 0 otherwise. */
  lemma ShiftIsNibble(a: byte, b: byte)
    requires a != b
    ensures 0 < Xor(a, b) && Shift(Xor(a, b)) == if a / 16 != b / 16 then 4 else 0
  {
    var v := Xor(a, b);
    XorHigh(a, b);
    XorSmall(a, b);
    assert v >= 16 ==> Mssb(v) == 4 + Mssb(v / 16) by { if v >= 16 { MssbHalf(v); } }
    assert v < 16 ==> Mssb(v) < 4 by { if v < 16 { MssbSmall(v); } }
    if v >= 16 { MssbSmall(v / 16); }
  }

  lemma MssbHalf(v: int)
    requires v >= 16
    ensures Mssb(v) == 4 + Mssb(v / 16)
  {
    assert Mssb(v) == 1 + Mssb(v / 2);
    assert Mssb(v / 2) == 1 + Mssb(v / 4);
    assert Mssb(v / 4) == 1 + Mssb(v / 8);
    assert Mssb(v / 8) == 1 + Mssb(v / 16);
  }

  lemma MssbSmall(v: int)
    requires 0 < v < 16
    ensures 0 <= Mssb(v) < 4
  {
    assert v >= 2 ==> Mssb(v) == 1 + Mssb(v / 2);
    assert v >= 4 ==> Mssb(v / 2) == 1 + Mssb(v / 4);
    assert v >= 8 ==> Mssb(v / 4) == 1 + Mssb(v / 8);
  }

  lemma BytesAgree(nk: Key, key: Key, diff: int)
    requires 0 <= diff <= |nk| && diff <= |key| && forall i | 0 <= i < diff :: nk[i] == key[i]
    ensures Agree(nk, key, 2 * diff)
  {
  }

  lemma DivergeAt(nk: Key, key: Key, diff: int)
    requires 0 <= diff < |nk| && diff < |key| && (forall i | 0 <= i < diff :: nk[i] == key[i]) && nk[diff] != key[diff]
    ensures 0 < Xor(nk[diff], key[diff])
    ensures Diverge(nk, key, diff, Shift(Xor(nk[diff], key[diff])))
  {
    BytesAgree(nk, key, diff);
    ShiftIsNibble(nk[diff], key[diff]);
    assert Nib(nk, 2 * diff) == nk[diff] / 16 && Nib(key, 2 * diff) == key[diff] / 16;
  }

  // ---------- the class

  class Critnib {
    var root: Ref
    var nodes: Store
    var nodeCount: int
    var nextAddr: int
    ghost var tree: Tree
    ghost var content: map<Key, int>

    ghost predicate Valid()
      reads this
    {
      && WF(tree) && Rep(nodes, root, tree) && NoAlias(tree)
      && (forall a | InTree(tree, a) :: a < nextAddr)
      && nodeCount == NodeCount(tree) && LeafCount(tree) == |content|
      && Mirrors(tree, content)
    }

    constructor ()
      ensures Valid() && content == map[] && nodeCount == 0
    {
      root, nodes, nodeCount, nextAddr := Null, map[], 0, 1;
      tree, content := Empty, map[];
    }

    /** Find some leaf of a subtree by taking first children. */
    method AnyLeafOf(n: Ref, ghost t: Tree) returns (x: Item)
      requires n.NodeRef? && WF(t) && Rep(nodes, n, t)
      ensures x == AnyLeaf(t)
      decreases t
    {
      var child := nodes[n.addr].child;
      var i := 0;
      while i < SLNODES && child[i] == Null
        invariant 0 <= i <= SLNODES && FirstKid(t.kids, i) == FirstKid(t.kids, 0)
      {
        assert Rep(nodes, child[i], t.kids[i]);
        i := i + 1;
      }
      SameFirst(nodes, child, t.kids, 0);
      SameFirst(nodes, child, t.kids, i);
      assert Rep(nodes, child[i], t.kids[i]);
      if child[i].LeafRef? {
        x := child[i].item;
      } else {
        x := AnyLeafOf(child[i], t.kids[i]);
      }
    }

    /** The first descent: follow the key's own nibbles as far as there are children. */
    method FindLeaf(key: Key) returns (x: Item)
      requires Valid() && tree != Empty
      ensures x == Walk(tree, key)
    {
      var n := root;
      ghost var t := tree;
      while n.NodeRef? && nodes[n.addr].byte < |key|
        invariant WF(t) && Rep(nodes, n, t) && t != Empty && Walk(t, key) == Walk(tree, key)
        decreases t
      {
        var cell := nodes[n.addr];
        var i := SliceIndex(key[cell.byte], cell.bit);
        assert Rep(nodes, cell.child[i], t.kids[i]);
        if cell.child[i] == Null {
          break;
        }
        n := cell.child[i];
        t := t.kids[i];
      }
      if n.LeafRef? {
        x := n.item;
      } else {
        x := AnyLeafOf(n, t);
      }
    }

    /** Look a key up: only branching nibbles are tested on the way, the whole key at the end. */
    method Get(key: Key) returns (found: bool, id: int)
      requires Valid()
      ensures found <==> key in content
      ensures found ==> id == content[key]
    {
      found, id := false, 0;
      var n := root;
      ghost var t := tree;
      while n.NodeRef?
        invariant WF(t) && Rep(nodes, n, t) && Find(t, key) == Find(tree, key)
        decreases t
      {
        var cell := nodes[n.addr];
        if cell.byte >= |key| {
          FoundIsMapped(tree, content, key);
          return;
        }
        var i := SliceIndex(key[cell.byte], cell.bit);
        assert Rep(nodes, cell.child[i], t.kids[i]);
        n := cell.child[i];
        t := t.kids[i];
      }
      FoundIsMapped(tree, content, key);
      if n.LeafRef? && n.item.key == key {
        found, id := true, n.item.id;
      }
    }

    /** The second descent: down to the edge on which the keys diverge. */
    method FindEdge(key: Key, diff: int, sh: int) returns (slot: Slot, n: Ref)
      requires Valid() && 0 <= diff < |key| && (sh == 0 || sh == 4)
      ensures slot == EndSlot(tree, RootSlot, key, diff, sh)
      ensures Rep(nodes, n, EndTree(tree, key, diff, sh)) && Holds(nodes, root, slot, n)
    {
      slot, n := RootSlot, root;
      ghost var t := tree;
      while n.NodeRef? && (nodes[n.addr].byte < diff || (nodes[n.addr].byte == diff && nodes[n.addr].bit >= sh))
        invariant WF(t) && Rep(nodes, n, t) && Holds(nodes, root, slot, n)
        invariant EndSlot(t, slot, key, diff, sh) == EndSlot(tree, RootSlot, key, diff, sh)
        invariant EndTree(t, key, diff, sh) == EndTree(tree, key, diff, sh)
        decreases t
      {
        hide Placed, Prefixed, Forked, Deeper;
        var cell := nodes[n.addr];
        assert GoesOn(t, key, diff, sh);
        var i := SliceIndex(key[cell.byte], cell.bit);
        assert Rep(nodes, cell.child[i], t.kids[i]);
        slot := ChildSlot(n.addr, i);
        n := cell.child[i];
        t := t.kids[i];
      }
    }

    method WriteSlot(slot: Slot, r: Ref)
      requires slot.ChildSlot? ==> slot.addr in nodes && 0 <= slot.i < |nodes[slot.addr].child|
      modifies `root, `nodes
      ensures slot == RootSlot ==> root == r && nodes == old(nodes)
      ensures slot.ChildSlot? ==> root == old(root) && nodes == SetChild(old(nodes), slot.addr, slot.i, r)
    {
      if slot == RootSlot {
        root := r;
      } else {
        nodes := SetChild(nodes, slot.addr, slot.i, r);
      }
    }

    /** Put the new leaf at the place found: into an empty child field, or below a new node on the edge. */
    method WriteNew(slot: Slot, n: Ref, nk: Key, x: Item, diff: int, sh: int)
      requires 0 <= diff < |nk| && diff < |x.key| && Holds(nodes, root, slot, n)
      requires slot.ChildSlot? ==> slot.addr < nextAddr
      modifies `root, `nodes, `nodeCount, `nextAddr
      ensures Written(old(nodes), nodes, old(root), root, slot, n, nk, x, diff, sh, old(nextAddr))
      ensures nodeCount == old(nodeCount) + (if n == Null then 0 else 1)
      ensures nextAddr == old(nextAddr) + 1
    {
      var addr := nextAddr;
      nextAddr := nextAddr + 1;
      if n == Null {
        WriteSlot(slot, LeafRef(x));
      } else {
        nodeCount := nodeCount + 1;
        nodes := nodes[addr := ForkCell(n, nk, x, diff, sh)];
        WriteSlot(slot, NodeRef(addr));
      }
    }

    method Place(slot: Slot, n: Ref, nk: Item, x: Item, diff: int, sh: int)
      requires Valid() && Has(tree, nk) && Diverge(nk.key, x.key, diff, sh)
      requires forall y | Has(tree, y) :: !Agree(y.key, x.key, Pos(diff, sh) + 1)
      requires slot == EndSlot(tree, RootSlot, x.key, diff, sh) && Holds(nodes, root, slot, n)
      requires Rep(nodes, n, EndTree(tree, x.key, diff, sh))
      modifies this
      ensures Valid() && content == old(content)[x.key := x.id] && x.key !in old(content)
      ensures nodeCount == old(nodeCount) + if n == Null then 0 else 1
    {
      hide WF, InsertAt, EndSlot, EndTree, Mirrors, Rep, InTree, NoAlias, NodeCount, LeafCount, Written, Has, Agree;
      InsertResult(tree, content, nk, x, diff, sh, nextAddr);
      EmptyIsNull(nodes, n, EndTree(tree, x.key, diff, sh));
      SlotBelow(tree, RootSlot, x.key, diff, sh, nextAddr);
      ghost var m := InsertAt(tree, nk.key, x, diff, sh, nextAddr);
      WriteNew(slot, n, nk.key, x, diff, sh);
      PlaceRep(old(nodes), nodes, old(root), root, tree, slot, n, nk.key, x, diff, sh, old(nextAddr));
      tree, content := m, content[x.key := x.id];
    }

    /** Insert a new entry. */
    method Set(x: Item) returns (err: int)
      requires Valid() && forall k | k in content :: PrefixFree(k, x.key)
      modifies this
      ensures Valid()
      ensures err == if x.key in old(content) then EEXIST else 0
      ensures content == if err == 0 then old(content)[x.key := x.id] else old(content)
      ensures err != 0 ==> tree == old(tree) && nodeCount == old(nodeCount)
    {
      if root == Null {
        root := LeafRef(x);
        FirstLeaf(tree, content, x);
        tree, content := Leaf(x), map[x.key := x.id];
        return 0;
      }
      EmptyIsNull(nodes, root, tree);
      var nk := FindLeaf(x.key);
      var commonLen := if |nk.key| < |x.key| then |nk.key| else |x.key|;
      var diff := 0;
      while diff < commonLen && nk.key[diff] == x.key[diff]
        invariant 0 <= diff <= commonLen && forall i | 0 <= i < diff :: nk.key[i] == x.key[i]
      {
        diff := diff + 1;
      }
      if diff >= commonLen {
        assert nk.key == x.key && x.key in content by { assert Has(tree, nk); }
        return EEXIST;
      }
      var at := Xor(nk.key[diff], x.key[diff]);
      DivergeAt(nk.key, x.key, diff);
      var sh := Shift(at);
      NoLongerPrefix(tree, x, diff, sh);
      hide Xor, Shift, WF, Has, Agree, Mirrors, Rep;
      var slot, n := FindEdge(x.key, diff, sh);
      Place(slot, n, nk, x, diff, sh);
      err := 0;
    }

    /** Descend to the leaf on the key's path, remembering the place that points to its parent. */
    method FindParent(key: Key) returns (found: bool, leaf: Ref, parent: Slot, pp: Slot)
      requires Valid()
      ensures found <==> key in content
      ensures found ==> leaf == LeafRef(Item(key, content[key])) && Holds(nodes, root, parent, leaf)
      ensures found && !tree.Node? ==> parent == RootSlot
      ensures found && tree.Node? ==>
                var p := ParentTree(tree, key);
                && pp == ParentSlot(tree, RootSlot, key) && p.Node? && 0 <= p.byte < |key|
                && parent == ChildSlot(p.addr, Next(p, key)) && Holds(nodes, root, pp, NodeRef(p.addr))
                && Rep(nodes, NodeRef(p.addr), p)
    {
      FoundIsMapped(tree, content, key);
      found, leaf, parent, pp := false, root, RootSlot, RootSlot;
      ghost var t := tree;
      ghost var p := tree;
      while leaf.NodeRef?
        invariant WF(t) && Rep(nodes, leaf, t) && Find(t, key) == Find(tree, key) && Holds(nodes, root, parent, leaf)
        invariant t.Node? ==> ParentTree(t, key) == ParentTree(tree, key)
        invariant t.Node? ==> ParentSlot(t, parent, key) == ParentSlot(tree, RootSlot, key)
        invariant t == tree ==> parent == RootSlot
        invariant t != tree ==> tree.Node? && p.Node? && 0 <= p.byte < |key| && |p.kids| == SLNODES
        invariant t != tree ==> t == p.kids[Next(p, key)] && parent == ChildSlot(p.addr, Next(p, key))
        invariant t != tree ==> Holds(nodes, root, pp, NodeRef(p.addr)) && Rep(nodes, NodeRef(p.addr), p)
        invariant t != tree && !t.Node? ==> p == ParentTree(tree, key) && pp == ParentSlot(tree, RootSlot, key)
        decreases t
      {
        hide NodeOk;
        var cell := nodes[leaf.addr];
        if cell.byte >= |key| {
          return;
        }
        pp := parent;
        p := t;
        var i := SliceIndex(key[cell.byte], cell.bit);
        assert Rep(nodes, cell.child[i], t.kids[i]);
        parent := ChildSlot(leaf.addr, i);
        leaf := cell.child[i];
        t := t.kids[i];
        assert t != tree;
      }
      if leaf.LeafRef? && leaf.item.key == key {
        found := true;
      }
    }

    /** Whether a node has a single child left, and which one. */
    method OnlyChild(child: seq<Ref>, ghost addr: int) returns (single: bool, r: Ref)
      requires |child| == SLNODES
      ensures single ==> r == Shortened(addr, child) && r in child && r != Null
      ensures !single ==> Shortened(addr, child) == NodeRef(addr)
    {
      r := Null;
      var i := 0;
      while i < SLNODES
        invariant 0 <= i <= SLNODES
        invariant r == Null ==> FirstChild(child, 0) == FirstChild(child, i)
        invariant r != Null ==> FirstChild(child, 0) < SLNODES && r == child[FirstChild(child, 0)]
                                && FirstChild(child, FirstChild(child, 0) + 1) == FirstChild(child, i)
      {
        if child[i] != Null {
          if r != Null {
            return false, Null;
          }
          r := child[i];
        }
        i := i + 1;
      }
      single := r != Null;
    }

    /** Clear the leaf's pointer and, if its parent is left with one child, shorten the edge. */
    method Unhook(parent: Slot, pp: Slot)
      requires parent.ChildSlot? && parent.addr in nodes && |nodes[parent.addr].child| == SLNODES
      requires 0 <= parent.i < SLNODES
      requires Holds(nodes, root, pp, NodeRef(parent.addr)) && (pp.ChildSlot? ==> pp.addr != parent.addr)
      requires forall i | 0 <= i < SLNODES :: nodes[parent.addr].child[i] != NodeRef(parent.addr)
      modifies `root, `nodes, `nodeCount
      ensures Unhooked(old(nodes), nodes, old(root), root, parent, pp)
      ensures var r := Shortened(parent.addr, old(nodes)[parent.addr].child[parent.i := Null]);
              nodeCount == old(nodeCount) - if r == NodeRef(parent.addr) then 0 else 1
    {
      WriteSlot(parent, Null);
      var single, r := OnlyChild(nodes[parent.addr].child, parent.addr);
      assert single ==> r != NodeRef(parent.addr);
      hide Shortened;
      if single {
        WriteSlot(pp, r);
        nodes := nodes - {parent.addr};
        nodeCount := nodeCount - 1;
      }
    }

    /** Find a key and delete it. */
    method Remove(key: Key) returns (found: bool, id: int)
      requires Valid()
      modifies this
      ensures Valid()
      ensures found <==> key in old(content)
      ensures found ==> id == old(content)[key]
      ensures content == old(content) - {key}
    {
      var leaf, parent, pp;
      found, leaf, parent, pp := FindParent(key);
      id := 0;
      if !found {
        return;
      }
      id := leaf.item.id;
      ghost var x := Item(key, content[key]);
      assert Has(tree, x);
      if parent == RootSlot {
        WriteSlot(parent, Null);
        LastLeaf(tree, content, x);
        tree, content := Empty, content - {key};
        return;
      }
      ParentReady(nodes, root, tree, pp, x);
      RemoveResult(tree, content, x);
      hide WF, Mirrors, Rep, InTree, NoAlias, NodeCount, LeafCount, Has, RemoveKey, Unhooked, ParentTree, ParentSlot,
           Collapse, Shortened;
      Unhook(parent, pp);
      UnhookRep(old(nodes), nodes, old(root), root, tree, parent, pp, x, nextAddr);
      tree, content := RemoveKey(tree, key), content - {key};
    }
  }

  lemma LastLeaf(t: Tree, c: map<Key, int>, x: Item)
    requires t == Leaf(x) && Mirrors(t, c)
    ensures c - {x.key} == map[] && Mirrors(Empty, map[])
  {
    assert forall k | k in c :: Has(t, Item(k, c[k]));
  }

  lemma RemoveResult(t: Tree, c: map<Key, int>, x: Item)
    requires WF(t) && Mirrors(t, c) && Has(t, x)
    ensures var m := RemoveKey(t, x.key);
            && WF(m) && Mirrors(m, c - {x.key}) && x.key in c && |c - {x.key}| == |c| - 1
            && (t.Node? ==> LeafCount(m) == LeafCount(t) - 1)
  {
    hide RemoveKey, WF, Has, LeafCount, NodeCount, Mirrors;
    RemoveWF(t, x);
    if t.Node? { RemoveCounts(t, x); }
    MirrorsWithout(t, RemoveKey(t, x.key), c, x);
  }

  lemma MirrorsWithout(t: Tree, m: Tree, c: map<Key, int>, x: Item)
    requires Mirrors(t, c) && Has(t, x) && forall y :: Has(m, y) <==> Has(t, y) && y != x
    ensures Mirrors(m, c - {x.key}) && x.key in c && |c - {x.key}| == |c| - 1
  {
    hide Has;
    assert c == (c - {x.key})[x.key := c[x.key]];
  }

  /** The parent's node is not its own child, and differs from the node that points to it. */
  lemma ParentReady(nodes: Store, root: Ref, t: Tree, pp: Slot, x: Item)
    requires WF(t) && t.Node? && Has(t, x) && Rep(nodes, root, t) && NoAlias(t)
    requires pp == ParentSlot(t, RootSlot, x.key)
    ensures var p := ParentTree(t, x.key);
            && p.Node? && (pp.ChildSlot? ==> pp.addr != p.addr)
            && (Rep(nodes, NodeRef(p.addr), p) ==>
                  forall i | 0 <= i < SLNODES :: nodes[p.addr].child[i] != NodeRef(p.addr))
  {
    ParentStored(t, x);
    ParentApart(t, RootSlot, x.key);
    var p := ParentTree(t, x.key);
    if Rep(nodes, NodeRef(p.addr), p) {
      forall i | 0 <= i < SLNODES ensures nodes[p.addr].child[i] != NodeRef(p.addr) {
        assert Rep(nodes, nodes[p.addr].child[i], p.kids[i]);
        assert !InTree(p.kids[i], p.addr);
      }
    }
  }

  lemma {:induction false} ParentApart(t: Tree, s: Slot, key: Key)
    requires t.Node? && NoAlias(t) && (s.ChildSlot? ==> !InTree(t, s.addr))
    ensures var p, e := ParentTree(t, key), ParentSlot(t, s, key);
            NoAlias(p) && (p.Node? && e.ChildSlot? ==> e.addr != p.addr)
    decreases t
  {
    assert InTree(t, t.addr);
    if AboveNode(t, key) {
      ParentApart(t.kids[Next(t, key)], ChildSlot(t.addr, Next(t, key)), key);
    }
  }

  lemma UnhookRep(nodes: Store, nodes': Store, root: Ref, root': Ref, t: Tree, parent: Slot, pp: Slot, x: Item,
                  unused: int)
    requires WF(t) && t.Node? && Has(t, x) && Rep(nodes, root, t) && NoAlias(t) && !InTree(t, unused)
    requires var p := ParentTree(t, x.key);
             && p.Node? && 0 <= p.byte < |x.key| && parent == ChildSlot(p.addr, Next(p, x.key))
             && pp == ParentSlot(t, RootSlot, x.key)
    requires Unhooked(nodes, nodes', root, root', parent, pp)
    ensures Rep(nodes', root', RemoveKey(t, x.key)) && NoAlias(RemoveKey(t, x.key))
    ensures forall a | InTree(RemoveKey(t, x.key), a) :: InTree(t, a)
    ensures NodeCount(RemoveKey(t, x.key)) == NodeCount(t) -
              if Shortened(parent.addr, nodes[parent.addr].child[parent.i := Null]) == NodeRef(parent.addr) then 0 else 1
  {
    hide NodeOk, Shortened, Collapse, Has, NodeCount, LeafCount;
    var p := ParentTree(t, x.key);
    ParentStored(t, x);
    ParentApart(t, RootSlot, x.key);
    ParentRep(nodes, t, x.key);
    RemoveCounts(t, x);
    assert InTree(p, p.addr);
    ParentDrops(nodes, p, parent.i, x);
    if AboveNode(t, x.key) {
      ParentInside(t, RootSlot, x.key);
      RemoveRep(nodes, nodes', t, RootSlot, x, unused);
    } else {
      RemoveAtParent(nodes, nodes', t, parent.i, x);
    }
  }

  lemma {:induction false} ParentRep(nodes: Store, t: Tree, key: Key)
    requires t.Node? && Rep(nodes, NodeRef(t.addr), t)
    ensures var p := ParentTree(t, key); p.Node? && Rep(nodes, NodeRef(p.addr), p)
    decreases t
  {
    if AboveNode(t, key) {
      assert Rep(nodes, nodes[t.addr].child[Next(t, key)], t.kids[Next(t, key)]);
      ParentRep(nodes, t.kids[Next(t, key)], key);
    }
  }

  lemma ParentDrops(nodes: Store, p: Tree, i: int, x: Item)
    requires p.Node? && |p.kids| == SLNODES && Rep(nodes, NodeRef(p.addr), p) && NoAlias(p)
    requires 0 <= i < SLNODES && p.kids[i] == Leaf(x)
    ensures var q := p.(kids := p.kids[i := Empty]);
            Shortened(p.addr, nodes[p.addr].child[i := Null]) == NodeRef(p.addr) <==> Collapse(q) == q
  {
    var q := p.(kids := p.kids[i := Empty]);
    var child := nodes[p.addr].child[i := Null];
    forall j | 0 <= j < SLNODES ensures Rep(nodes, child[j], q.kids[j]) && !InTree(q.kids[j], q.addr) {
      assert Rep(nodes, nodes[p.addr].child[j], p.kids[j]);
    }
    var _ := ShortenedIsCollapse(nodes, q, child);
  }

  ghost predicate Unhooked(nodes: Store, nodes': Store, root: Ref, root': Ref, parent: Slot, pp: Slot) {
    && parent.ChildSlot? && parent.addr in nodes && 0 <= parent.i < |nodes[parent.addr].child|
    && var child := nodes[parent.addr].child[parent.i := Null];
       var r := Shortened(parent.addr, child);
       && (r == NodeRef(parent.addr) ==> parent.addr in nodes' && nodes'[parent.addr] == nodes[parent.addr].(child := child))
       && (pp == RootSlot ==> root' == r)
       && (pp.ChildSlot? ==>
             && root' == root && pp.addr in nodes && 0 <= pp.i < |nodes[pp.addr].child| && pp.addr in nodes'
             && nodes'[pp.addr] == nodes[pp.addr].(child := nodes[pp.addr].child[pp.i := r]))
       && (forall a | a in nodes && a != parent.addr && (pp.ChildSlot? ==> a != pp.addr) ::
             a in nodes' && nodes'[a] == nodes[a])
  }

  lemma FirstLeaf(t: Tree, c: map<Key, int>, x: Item)
    requires t == Empty && Mirrors(t, c)
    ensures c == map[] && Mirrors(Leaf(x), map[x.key := x.id])
  {
    assert forall k | k in c :: Has(t, Item(k, c[k]));
  }

  /** Every stored key leaves the new one at or before the divergence seen from the leaf found. */
  lemma NoLongerPrefix(t: Tree, x: Item, diff: int, sh: int)
    requires WF(t) && t != Empty && Diverge(Walk(t, x.key).key, x.key, diff, sh)
    ensures forall y | Has(t, y) :: !Agree(y.key, x.key, Pos(diff, sh) + 1)
  {
    var nk := Walk(t, x.key);
    NibIsSlice(nk.key, diff, sh);
    NibIsSlice(x.key, diff, sh);
    assert !Agree(nk.key, x.key, Pos(diff, sh) + 1);
    forall y | Has(t, y) && Agree(y.key, x.key, Pos(diff, sh) + 1) ensures false {
      WalkIsBest(t, x.key, y, Pos(diff, sh) + 1);
    }
  }

  /** Memory after a new leaf has been put at `slot`, which held `n`. */
  ghost predicate Written(nodes: Store, nodes': Store, root: Ref, root': Ref, slot: Slot, n: Ref, nk: Key, x: Item,
                          diff: int, sh: int, addr: int)
    requires 0 <= diff < |nk| && diff < |x.key|
  {
    var mid := if n == Null then nodes else nodes[addr := ForkCell(n, nk, x, diff, sh)];
    var r := if n == Null then LeafRef(x) else NodeRef(addr);
    if slot == RootSlot then root' == r && nodes' == mid
    else root' == root && slot.addr in mid && 0 <= slot.i < |mid[slot.addr].child|
         && nodes' == SetChild(mid, slot.addr, slot.i, r)
  }

  lemma SlotBelow(t: Tree, s: Slot, key: Key, diff: int, sh: int, bound: int)
    requires forall a | InTree(t, a) :: a < bound
    requires s == RootSlot
    ensures var e := EndSlot(t, s, key, diff, sh); e.ChildSlot? ==> e.addr < bound
  {
    if GoesOn(t, key, diff, sh) {
      EndSlotInside(t, s, key, diff, sh);
    }
  }

  lemma EmptyIsNull(nodes: Store, r: Ref, t: Tree)
    requires Rep(nodes, r, t)
    ensures r == Null <==> t == Empty
  {
  }

  lemma NewKey(t: Tree, c: map<Key, int>, x: Item, diff: int, sh: int)
    requires Mirrors(t, c) && 0 <= diff < |x.key| && (sh == 0 || sh == 4)
    requires forall y | Has(t, y) :: !Agree(y.key, x.key, Pos(diff, sh) + 1)
    ensures x.key !in c
  {
    var id := if x.key in c then c[x.key] else 0;
    assert x.key in c ==> Has(t, Item(x.key, id));
    assert Agree(x.key, x.key, Pos(diff, sh) + 1);
  }

  /** What the insertion does to the tree, to the map and to the counts. */
  lemma InsertResult(t: Tree, c: map<Key, int>, nk: Item, x: Item, diff: int, sh: int, addr: int)
    requires WF(t) && Mirrors(t, c) && Has(t, nk) && Diverge(nk.key, x.key, diff, sh)
    requires forall y | Has(t, y) :: !Agree(y.key, x.key, Pos(diff, sh) + 1)
    ensures var m := InsertAt(t, nk.key, x, diff, sh, addr);
            && WF(m) && Mirrors(m, c[x.key := x.id]) && x.key !in c
            && LeafCount(m) == LeafCount(t) + 1
            && NodeCount(m) == NodeCount(t) + if EndTree(t, x.key, diff, sh) == Empty then 0 else 1
  {
    InsertWF(t, nk, x, diff, sh, addr);
    InsertCounts(t, nk.key, x, diff, sh, addr);
    NewKey(t, c, x, diff, sh);
    hide InsertAt, WF, Has;
  }

  lemma PlaceRep(nodes: Store, nodes': Store, root: Ref, root': Ref, t: Tree, slot: Slot, n: Ref, nk: Key, x: Item,
                 diff: int, sh: int, addr: int)
    requires WF(t) && Rep(nodes, root, t) && NoAlias(t) && !InTree(t, addr)
    requires 0 <= diff < |nk| && diff < |x.key|
    requires slot == EndSlot(t, RootSlot, x.key, diff, sh) && Holds(nodes, root, slot, n)
    requires Rep(nodes, n, EndTree(t, x.key, diff, sh))
    requires Written(nodes, nodes', root, root', slot, n, nk, x, diff, sh, addr)
    ensures Rep(nodes', root', InsertAt(t, nk, x, diff, sh, addr))
    ensures NoAlias(InsertAt(t, nk, x, diff, sh, addr))
    ensures forall a | InTree(InsertAt(t, nk, x, diff, sh, addr), a) :: InTree(t, a) || a == addr
  {
    hide NodeOk, ForkCell, InsertAt;
    var u := EndTree(t, x.key, diff, sh);
    assert n == Null <==> u == Empty;
    if GoesOn(t, x.key, diff, sh) {
      EndSlotInside(t, RootSlot, x.key, diff, sh);
      InsertRep(nodes, nodes', t, RootSlot, nk, x, diff, sh, addr);
    } else {
      InsertAtEnd(nodes, nodes', root, t, nk, x, diff, sh, addr);
    }
  }

  /** The pointer stored at a place. */
  ghost predicate Holds(nodes: Store, root: Ref, slot: Slot, r: Ref) {
    match slot
    case RootSlot => root == r
    case ChildSlot(a, i) => a in nodes && 0 <= i < |nodes[a].child| && nodes[a].child[i] == r
  }

  lemma FoundIsMapped(t: Tree, m: map<Key, int>, key: Key)
    requires WF(t) && Mirrors(t, m)
    ensures Find(t, key) == if key in m then {m[key]} else {}
  {
    forall id ensures id in Find(t, key) <==> key in m && m[key] == id {
      FindIsHas(t, key, id);
      assert Has(t, Item(key, id)) <==> key in m && m[key] == id;
    }
  }

  /** The map a tree stands for. */
  ghost predicate Mirrors(t: Tree, m: map<Key, int>) {
    forall x :: Has(t, x) <==> x.key in m && m[x.key] == x.id
  }
}
