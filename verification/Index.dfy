/** The index: crit-nib trees in shards, over length-prefixed keys, with their counters. */
module Index {
  import opened Bytes
  import opened Sums
  import opened CritnibTree
  import C = Critnib

  const NSHARDS := 256

  // ---------- length-prefixed keys

  function LittleEndian(n: nat, width: nat): (s: Key)
    ensures |s| == width
  {
    if width == 0 then [] else [n % 256] + LittleEndian(n / 256, width - 1)
  }

  function Pow256(w: nat): nat {
    if w == 0 then 1 else 256 * Pow256(w - 1)
  }

  lemma {:induction false} LittleEndianInjective(n: nat, m: nat, w: nat)
    requires n < Pow256(w) && m < Pow256(w) && LittleEndian(n, w) == LittleEndian(m, w)
    ensures n == m
  {
    if w > 0 {
      var s, t := LittleEndian(n, w), LittleEndian(m, w);
      assert s[0] == n % 256 && t[0] == m % 256;
      assert s[1..] == LittleEndian(n / 256, w - 1) && t[1..] == LittleEndian(m / 256, w - 1);
      LittleEndianInjective(n / 256, m / 256, w - 1);
    }
  }

  /** The bytes the tree sees: the 8-byte length, then the key. */
  function Encode(k: Key): (e: Key)
    ensures |e| == |k| + 8 && e[8..] == k
  {
    LittleEndian(|k|, 8) + k
  }

  /** The user's key in an encoded one. */
  function Raw(e: Key): Key {
    if |e| < 8 then e else e[8..]
  }

  ghost predicate IsEncoded(e: Key) {
    8 <= |e| <= MAX_KEY + 8 && e == Encode(Raw(e))
  }

  lemma RawEncode(k: Key)
    requires |k| <= MAX_KEY
    ensures Raw(Encode(k)) == k && IsEncoded(Encode(k))
  {
  }

  /** Length-prefixed keys are prefix-free, which is what the tree needs of its callers. */
  lemma EncodedPrefixFree(e: Key, f: Key)
    requires IsEncoded(e) && IsEncoded(f)
    ensures C.PrefixFree(e, f)
  {
    if forall i | 0 <= i < |e| && i < |f| :: e[i] == f[i] {
      assert e[..8] == LittleEndian(|e| - 8, 8) && f[..8] == LittleEndian(|f| - 8, 8);
      assert e[..8] == f[..8];
      assert Pow256(8) == 256 * (256 * (256 * (256 * Pow256(4)))) && Pow256(4) == 0x1_0000_0000;
      LittleEndianInjective(|e| - 8, |f| - 8, 8);
    }
  }

  // ---------- shards

  type Shards = seq<map<Key, int>>

  function ShardIn(sharding: bool, hash: Key -> nat, k: Key): (i: int)
    ensures 0 <= i < NSHARDS
  {
    if sharding then hash(k) % NSHARDS else 0
  }

  /** An encoded key in shard `b` is a key of the map that hashes to `b`. */
  ghost predicate InShard(sharding: bool, hash: Key -> nat, s: Shards, m: map<Key, int>, b: int, e: Key)
    requires 0 <= b < |s|
  {
    e in s[b] ==> IsEncoded(e) && ShardIn(sharding, hash, Raw(e)) == b && Raw(e) in m && m[Raw(e)] == s[b][e]
  }

  ghost predicate Reached(sharding: bool, hash: Key -> nat, s: Shards, m: map<Key, int>, k: Key)
    requires |s| == NSHARDS
  {
    k in m ==> |k| <= MAX_KEY && Encode(k) in s[ShardIn(sharding, hash, k)]
  }

  /** Each shard holds, under their encodings, exactly the keys that hash to it. */
  ghost predicate Sharded(sharding: bool, hash: Key -> nat, s: Shards, m: map<Key, int>) {
    && |s| == NSHARDS
    && (forall b, e | 0 <= b < |s| :: InShard(sharding, hash, s, m, b, e))
    && (forall k :: Reached(sharding, hash, s, m, k))
  }

  lemma EncodeApart(k: Key, e: Key)
    requires |k| <= MAX_KEY
    ensures IsEncoded(Encode(k)) && Raw(Encode(k)) == k
    ensures IsEncoded(e) && Raw(e) == k ==> e == Encode(k)
  {
    RawEncode(k);
  }

  lemma ShardLookup(sharding: bool, hash: Key -> nat, s: Shards, m: map<Key, int>, k: Key)
    requires Sharded(sharding, hash, s, m) && |k| <= MAX_KEY
    ensures var b := ShardIn(sharding, hash, k);
            (k in m <==> Encode(k) in s[b]) && (k in m ==> m[k] == s[b][Encode(k)])
    ensures forall e | e in s[ShardIn(sharding, hash, k)] :: C.PrefixFree(e, Encode(k))
  {
    RawEncode(k);
    hide ShardIn, Encode, Raw, IsEncoded;
    var b := ShardIn(sharding, hash, k);
    assert Reached(sharding, hash, s, m, k) && InShard(sharding, hash, s, m, b, Encode(k));
    forall e | e in s[b] ensures C.PrefixFree(e, Encode(k)) {
      assert InShard(sharding, hash, s, m, b, e);
      EncodedPrefixFree(e, Encode(k));
    }
  }

  lemma ShardInsert(sharding: bool, hash: Key -> nat, s: Shards, m: map<Key, int>, k: Key, id: int)
    requires Sharded(sharding, hash, s, m) && |k| <= MAX_KEY
    ensures var b := ShardIn(sharding, hash, k);
            Sharded(sharding, hash, s[b := s[b][Encode(k) := id]], m[k := id])
  {
    hide ShardIn, Encode, Raw, IsEncoded;
    var b := ShardIn(sharding, hash, k);
    var t, n := s[b := s[b][Encode(k) := id]], m[k := id];
    forall c, e | 0 <= c < |t| ensures InShard(sharding, hash, t, n, c, e) {
      assert InShard(sharding, hash, s, m, c, e);
      EncodeApart(k, e);
    }
    forall j ensures Reached(sharding, hash, t, n, j) {
      assert Reached(sharding, hash, s, m, j);
    }
  }

  lemma ShardRemove(sharding: bool, hash: Key -> nat, s: Shards, m: map<Key, int>, k: Key)
    requires Sharded(sharding, hash, s, m) && |k| <= MAX_KEY
    ensures var b := ShardIn(sharding, hash, k);
            Sharded(sharding, hash, s[b := s[b] - {Encode(k)}], m - {k})
  {
    hide ShardIn, Encode, Raw, IsEncoded;
    var b := ShardIn(sharding, hash, k);
    var t, n := s[b := s[b] - {Encode(k)}], m - {k};
    forall c, e | 0 <= c < |t| ensures InShard(sharding, hash, t, n, c, e) {
      assert InShard(sharding, hash, s, m, c, e);
      EncodeApart(k, e);
    }
    forall j ensures Reached(sharding, hash, t, n, j) {
      assert Reached(sharding, hash, s, m, j);
      EncodeApart(k, Encode(k));
      if |j| <= MAX_KEY { EncodeApart(j, Encode(j)); }
    }
  }

  /** In every shard, puts minus evictions equals the number of leaves. */
  ghost predicate Counted(leaf: seq<int>, put: seq<int>, evict: seq<int>, s: Shards) {
    && |leaf| == |put| == |evict| == |s|
    && (forall b | 0 <= b < |s| :: leaf[b] == |s[b]| && leaf[b] == put[b] - evict[b])
  }

  lemma CountInserted(leaf: seq<int>, put: seq<int>, evict: seq<int>, s: Shards, b: int, e: Key, id: int)
    requires Counted(leaf, put, evict, s) && 0 <= b < |s| && e !in s[b]
    ensures Counted(leaf[b := leaf[b] + 1], put[b := put[b] + 1], evict, s[b := s[b][e := id]])
  {
  }

  lemma CountRemoved(leaf: seq<int>, put: seq<int>, evict: seq<int>, s: Shards, b: int, e: Key)
    requires Counted(leaf, put, evict, s) && 0 <= b < |s| && e in s[b]
    ensures Counted(leaf[b := leaf[b] - 1], put, evict[b := evict[b] + 1], s[b := s[b] - {e}])
  {
    assert s[b] == (s[b] - {e})[e := s[b][e]];
  }

  lemma OneKeyLess(m: map<Key, int>, k: Key)
    requires k in m
    ensures |m - {k}| == |m| - 1
  {
    assert m == (m - {k})[k := m[k]];
  }

  lemma NoKeyLess(s: Shards, m: map<Key, int>, b: int, k: Key, e: Key)
    requires 0 <= b < |s| && e !in s[b] && k !in m
    ensures s[b := s[b] - {e}] == s && m - {k} == m
  {
    assert s[b] - {e} == s[b];
  }

  // ---------- the index

  datatype Stat = PUT | EVICT | HIT | MISS | ENTRIES

  /** The counters, each added up over the shards. */
  datatype Totals = Totals(puts: int, evicts: int, hits: int, misses: int)

  function Bumped(counts: seq<int>, b: int): seq<int>
    requires 0 <= b < |counts|
  {
    counts[b := counts[b] + 1]
  }

  class Index {
    const bucket: seq<C.Critnib>
    const sharding: bool
    const hash: Key -> nat
    var leafCount: seq<int>
    var putCount: seq<int>
    var evictCount: seq<int>
    var hitCount: seq<int>
    var missCount: seq<int>
    ghost var shards: Shards
    ghost var content: map<Key, int>

    static ghost predicate Stores(c: C.Critnib, m: map<Key, int>)
      reads c
    {
      c.Valid() && c.content == m
    }

    /** The buckets are different trees, and bucket `b` is the map `s[b]`. */
    ghost predicate StoredAs(s: Shards)
      reads bucket
    {
      && |bucket| == |s| == NSHARDS
      && (forall i, j | 0 <= i < j < NSHARDS :: bucket[i] != bucket[j])
      && (forall b | 0 <= b < NSHARDS :: Stores(bucket[b], s[b]))
    }

    ghost predicate Valid()
      reads this, bucket
    {
      && StoredAs(shards)
      && |hitCount| == |missCount| == NSHARDS
      && Counted(leafCount, putCount, evictCount, shards)
      && Sharded(sharding, hash, shards, content)
      && AddUp(leafCount) == |content|
    }

    ghost function Stats(): Totals
      reads this
    {
      Totals(AddUp(putCount), AddUp(evictCount), AddUp(hitCount), AddUp(missCount))
    }

    constructor (sharding: bool, hash: Key -> nat)
      ensures Valid() && content == map[] && Stats() == Totals(0, 0, 0, 0)
      ensures this.sharding == sharding && this.hash == hash
      ensures forall b | b in bucket :: fresh(b)
    {
      hide C.Critnib.Valid;
      var trees: seq<C.Critnib> := [];
      while |trees| < NSHARDS
        invariant |trees| <= NSHARDS && (forall b | b in trees :: fresh(b))
        invariant forall i, j | 0 <= i < j < |trees| :: trees[i] != trees[j]
        invariant forall i | 0 <= i < |trees| :: Stores(trees[i], map[])
      {
        var c := new C.Critnib();
        assert forall i | 0 <= i < |trees| :: trees[i] in trees;
        trees := trees + [c];
      }
      bucket := trees;
      this.sharding := sharding;
      this.hash := hash;
      var zeros := seq(NSHARDS, _ => 0);
      leafCount, putCount, evictCount, hitCount, missCount := zeros, zeros, zeros, zeros, zeros;
      shards := seq(NSHARDS, _ => map[]);
      content := map[];
      AddZeros(NSHARDS);
    }

    lemma Sized()
      requires Valid()
      ensures |bucket| == |shards| == |leafCount| == |putCount| == |evictCount| == NSHARDS
    {
    }

    /** Run the tree operation on one bucket and leave the others alone. */
    method SetIn(b: int, x: Item, ghost s: Shards) returns (err: int)
      requires StoredAs(s) && 0 <= b < NSHARDS && (forall k | k in s[b] :: C.PrefixFree(k, x.key))
      modifies bucket[b]
      ensures err == if x.key in s[b] then C.EEXIST else 0
      ensures StoredAs(if err == 0 then s[b := s[b][x.key := x.id]] else s)
    {
      hide C.Critnib.Valid, C.PrefixFree;
      assert Stores(bucket[b], s[b]);
      err := bucket[b].Set(x);
      forall j | 0 <= j < NSHARDS && j != b ensures Stores(bucket[j], s[j]) {
        assert old(Stores(bucket[j], s[j])) && bucket[j] != bucket[b];
      }
    }

    /** One leaf and one put more. */
    method CountPut(b: int)
      requires 0 <= b < |leafCount| && b < |putCount|
      modifies `leafCount, `putCount
      ensures leafCount == old(leafCount)[b := old(leafCount)[b] + 1] && putCount == Bumped(old(putCount), b)
      ensures AddUp(leafCount) == AddUp(old(leafCount)) + 1 && AddUp(putCount) == AddUp(old(putCount)) + 1
    {
      hide AddUp;
      AddUpdate(leafCount, b, leafCount[b] + 1);
      AddUpdate(putCount, b, putCount[b] + 1);
      leafCount := leafCount[b := leafCount[b] + 1];
      putCount := putCount[b := putCount[b] + 1];
    }

    /** One leaf less and one eviction more. */
    method CountEvict(b: int)
      requires 0 <= b < |leafCount| && b < |evictCount|
      modifies `leafCount, `evictCount
      ensures leafCount == old(leafCount)[b := old(leafCount)[b] - 1] && evictCount == Bumped(old(evictCount), b)
      ensures AddUp(leafCount) == AddUp(old(leafCount)) - 1 && AddUp(evictCount) == AddUp(old(evictCount)) + 1
    {
      hide AddUp;
      AddUpdate(leafCount, b, leafCount[b] - 1);
      AddUpdate(evictCount, b, evictCount[b] + 1);
      leafCount := leafCount[b := leafCount[b] - 1];
      evictCount := evictCount[b := evictCount[b] + 1];
    }

    /** Insert an entry; fails exactly when the key is there already. */
    method Insert(key: Key, id: int) returns (err: int)
      requires Valid() && |key| <= MAX_KEY
      modifies this, bucket
      ensures Valid()
      ensures err == if key in old(content) then C.EEXIST else 0
      ensures content == if err == 0 then old(content)[key := id] else old(content)
      ensures hitCount == old(hitCount) && missCount == old(missCount) && evictCount == old(evictCount)
      ensures |old(putCount)| == NSHARDS
      ensures putCount == if err == 0 then Bumped(old(putCount), ShardIn(sharding, hash, key)) else old(putCount)
      ensures Stats() == if err == 0 then old(Stats()).(puts := old(Stats()).puts + 1) else old(Stats())
    {
      hide StoredAs, Sharded, Counted, Encode, ShardIn, C.PrefixFree, AddUp;
      Sized();
      var b := ShardIn(sharding, hash, key);
      ShardLookup(sharding, hash, shards, content, key);
      err := SetIn(b, Item(Encode(key), id), shards);
      if err == 0 {
        CountInserted(leafCount, putCount, evictCount, shards, b, Encode(key), id);
        ShardInsert(sharding, hash, shards, content, key, id);
        CountPut(b);
        shards := shards[b := shards[b][Encode(key) := id]];
        content := content[key := id];
      }
    }

    /** Look a key up, counting the hit or miss if asked to. */
    method Get(key: Key, bumpStat: bool) returns (found: bool, id: int)
      requires Valid() && |key| <= MAX_KEY
      modifies `hitCount, `missCount
      ensures Valid()
      ensures found <==> key in content
      ensures found ==> id == content[key]
      ensures var b := ShardIn(sharding, hash, key);
              && |old(hitCount)| == |old(missCount)| == NSHARDS
              && hitCount == (if found && bumpStat then Bumped(old(hitCount), b) else old(hitCount))
              && missCount == (if !found && bumpStat then Bumped(old(missCount), b) else old(missCount))
      ensures Stats() == if !bumpStat then old(Stats())
                         else if found then old(Stats()).(hits := old(Stats()).hits + 1)
                         else old(Stats()).(misses := old(Stats()).misses + 1)
    {
      hide C.Critnib.Valid, Sharded, Counted, Encode, ShardIn, C.PrefixFree, AddUp;
      var b := ShardIn(sharding, hash, key);
      assert Stores(bucket[b], shards[b]);
      ShardLookup(sharding, hash, shards, content, key);
      found, id := bucket[b].Get(Encode(key));
      hide StoredAs;
      if bumpStat {
        AddUpdate(hitCount, b, hitCount[b] + 1);
        AddUpdate(missCount, b, missCount[b] + 1);
        if found {
          hitCount := hitCount[b := hitCount[b] + 1];
        } else {
          missCount := missCount[b := missCount[b] + 1];
        }
      }
    }

    method RemoveIn(b: int, e: Key, ghost s: Shards) returns (found: bool)
      requires StoredAs(s) && 0 <= b < NSHARDS
      modifies bucket[b]
      ensures found <==> e in s[b]
      ensures StoredAs(s[b := s[b] - {e}])
    {
      hide C.Critnib.Valid;
      assert Stores(bucket[b], s[b]);
      var id;
      found, id := bucket[b].Remove(e);
      forall j | 0 <= j < NSHARDS && j != b ensures Stores(bucket[j], s[j]) {
        assert old(Stores(bucket[j], s[j])) && bucket[j] != bucket[b];
      }
    }

    /** Delete a key; fails exactly when it is not there. */
    method Remove(key: Key) returns (found: bool)
      requires Valid() && |key| <= MAX_KEY
      modifies this, bucket
      ensures Valid()
      ensures found <==> key in old(content)
      ensures content == old(content) - {key}
      ensures hitCount == old(hitCount) && missCount == old(missCount) && putCount == old(putCount)
      ensures |old(evictCount)| == NSHARDS
      ensures evictCount == if found then Bumped(old(evictCount), ShardIn(sharding, hash, key)) else old(evictCount)
      ensures Stats() == if found then old(Stats()).(evicts := old(Stats()).evicts + 1) else old(Stats())
    {
      hide StoredAs, Sharded, Counted, Encode, ShardIn, AddUp;
      Sized();
      var b := ShardIn(sharding, hash, key);
      ShardLookup(sharding, hash, shards, content, key);
      found := RemoveIn(b, Encode(key), shards);
      if !found {
        NoKeyLess(shards, content, b, key, Encode(key));
        return;
      }
      CountRemoved(leafCount, putCount, evictCount, shards, b, Encode(key));
      ShardRemove(sharding, hash, shards, content, key);
      OneKeyLess(content, key);
      CountEvict(b);
      shards := shards[b := shards[b] - {Encode(key)}];
      content := content - {key};
    }

    /** Add a counter up over the shards. */
    method GetStat(stat: Stat) returns (total: int)
      requires Valid()
      ensures total == match stat
                       case PUT => Stats().puts
                       case EVICT => Stats().evicts
                       case HIT => Stats().hits
                       case MISS => Stats().misses
                       case ENTRIES => |content|
    {
      hide StoredAs, Sharded;
      Sized();
      var counts := match stat
        case PUT => putCount
        case EVICT => evictCount
        case HIT => hitCount
        case MISS => missCount
        case ENTRIES => leafCount;
      total := 0;
      assert counts[..0] == [];
      for i := 0 to NSHARDS
        invariant |counts| == NSHARDS && total == AddUp(counts[..i])
      {
        assert counts[..i + 1][..i] == counts[..i];
        total := total + counts[i];
      }
      assert counts[..NSHARDS] == counts;
    }

    /** In each shard: no nodes when it is empty, else fewer nodes than leaves; the counters add up;
        and every key of the shard hashes to it. */
    lemma ShardFacts(b: int)
      requires Valid() && 0 <= b < NSHARDS
      ensures leafCount[b] == |bucket[b].content| == putCount[b] - evictCount[b]
      ensures bucket[b].nodeCount == 0 || bucket[b].nodeCount < leafCount[b]
      ensures leafCount[b] == 0 ==> bucket[b].nodeCount == 0
      ensures forall e | e in bucket[b].content :: if sharding then hash(Raw(e)) % NSHARDS == b else b == 0
    {
      assert Stores(bucket[b], shards[b]);
      FewNodes(bucket[b].tree);
      forall e | e in bucket[b].content ensures if sharding then hash(Raw(e)) % NSHARDS == b else b == 0 {
        assert InShard(sharding, hash, shards, content, b, e);
      }
    }

    /** An index without keys has no tree left in any shard. */
    lemma EmptyIndex()
      requires Valid() && (forall k :: k !in content)
      ensures |bucket| == |leafCount| == |putCount| == |evictCount| == NSHARDS
      ensures forall b | 0 <= b < NSHARDS ::
                bucket[b].root.Null? && bucket[b].nodeCount == 0 && leafCount[b] == 0 && putCount[b] == evictCount[b]
    {
      forall b | 0 <= b < NSHARDS
        ensures bucket[b].root.Null? && bucket[b].nodeCount == 0 && leafCount[b] == 0 && putCount[b] == evictCount[b]
      {
        NoTrees(b);
        ShardFacts(b);
      }
    }

    lemma NoTrees(b: int)
      requires Valid() && 0 <= b < NSHARDS && (forall k :: k !in content)
      ensures bucket[b].root.Null? && bucket[b].nodeCount == 0 && leafCount[b] == 0
    {
      hide NodeCount, LeafCount, WF;
      assert Stores(bucket[b], shards[b]);
      if bucket[b].tree != Empty {
        var k := SomeKey(b);
      } else {
        NoLeaves();
      }
    }

    lemma SomeKey(b: int) returns (k: Key)
      requires Valid() && 0 <= b < NSHARDS && bucket[b].tree != Empty
      ensures k in content
    {
      assert Stores(bucket[b], shards[b]);
      var x := AnyLeaf(bucket[b].tree);
      assert InShard(sharding, hash, shards, content, b, x.key);
      k := Raw(x.key);
    }
  }

  lemma NoLeaves()
    ensures LeafCount(Empty) == 0 && NodeCount(Empty) == 0
  {
  }
}
