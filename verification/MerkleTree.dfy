/** `pkg/merkle`: the append-only tree that keeps a compact range, reads leaves through a bounded
    cache to a store, and recomputes evicted interior nodes. While the store agrees with the leaves
    appended, or no leaf is ever evicted, every answer is the one an uncached RFC 6962 tree over the
    same leaves gives. */
module MerkleTree {
  import opened Encoding
  import opened Hashing
  import opened Rfc6962
  import opened Inclusion
  import opened Consistency
  import opened CompactRange
  import opened ProofNodes
  import opened LruCache

  datatype Failure = OutOfRange | ReadError(idx: nat) | LeafMissing(idx: nat)

  datatype Result<+T> = Ok(value: T) | Err(error: Failure)

  /** The durable home of leaf hashes. A durable store ignores the tree's own writes, because the
      caller has already persisted the leaf together with its entry. */
  class LeafStore {
    var leaves: map<nat, Bytes>
    const durable: bool

    constructor (durable: bool)
      ensures this.durable == durable && leaves == map[]
    {
      this.durable := durable;
      leaves := map[];
    }

    /** A read; `broken` are the keys whose reads fail. An empty value counts as missing. */
    method GetLeafHash(idx: nat, broken: set<nat>) returns (r: Result<Bytes>)
      ensures r == Err(ReadError(idx)) <==> idx in broken
      ensures r == Err(LeafMissing(idx)) <==> idx !in broken && !Stored(leaves, idx)
      ensures r.Err? <==> idx in broken || !Stored(leaves, idx)
      ensures r.Ok? ==> r.value == leaves[idx]
    {
      if idx in broken {
        return Err(ReadError(idx));
      }
      r := if idx in leaves && |leaves[idx]| > 0 then Ok(leaves[idx]) else Err(LeafMissing(idx));
    }

    method PutLeafHash(idx: nat, hash: Bytes)
      modifies this
      ensures leaves == if durable then old(leaves) else old(leaves)[idx := hash]
    {
      if !durable {
        leaves := leaves[idx := hash];
      }
    }
  }

  ghost predicate Stored(stored: map<nat, Bytes>, i: nat) { i in stored && stored[i] != [] }

  ghost predicate LeavesGood(cached: map<nat, Bytes>, leaves: seq<Digest>)
  {
    forall i :: i in cached ==> i < |leaves| && cached[i] == leaves[i]
  }

  ghost predicate NodesGood(sha: Hasher, cached: map<NodeId, Bytes>, leaves: seq<Digest>)
  {
    forall id :: id in cached ==>
                   && id.level > 0 && CompleteIn(|leaves|, id) && InTree(|leaves|, id)
                   && cached[id] == HashOf(sha, leaves, |leaves|, id)
  }

  /** Where the store and the tree overlap, they agree. */
  ghost predicate StoreGood(stored: map<nat, Bytes>, leaves: seq<Digest>)
  {
    forall i: nat :: i < |leaves| && Stored(stored, i) ==> stored[i] == leaves[i]
  }

  ghost predicate StoreFull(stored: map<nat, Bytes>, leaves: seq<Digest>)
  {
    forall i: nat :: i < |leaves| ==> Stored(stored, i)
  }

  /** Every leaf is in memory. */
  ghost predicate AllCached(cached: map<nat, Bytes>, leaves: seq<Digest>)
  {
    forall i: nat :: i < |leaves| ==> i in cached
  }

  /** Leaf reads are right and stay so: what is cached is right, and what is not cached is right in the
      store, or nothing is ever evicted. */
  ghost predicate ReadsRight(cached: map<nat, Bytes>, stored: map<nat, Bytes>, leaves: seq<Digest>, max: nat)
  {
    LeavesGood(cached, leaves) && (StoreGood(stored, leaves) || (max == 0 && AllCached(cached, leaves)))
  }

  /** What a leaf reads as, if it can be read. */
  ghost function LeafValue(cached: map<nat, Bytes>, stored: map<nat, Bytes>, i: nat): Bytes
  {
    if i in cached then cached[i] else if i in stored then stored[i] else []
  }

  lemma ReadRight(cached: map<nat, Bytes>, stored: map<nat, Bytes>, leaves: seq<Digest>, max: nat, i: nat)
    requires ReadsRight(cached, stored, leaves, max) && i < |leaves| && (i in cached || Stored(stored, i))
    ensures LeafValue(cached, stored, i) == leaves[i]
  {
  }

  /** Caching what the store holds. */
  lemma PromoteRight(now: map<nat, Bytes>, was: map<nat, Bytes>, stored: map<nat, Bytes>, leaves: seq<Digest>, max: nat,
                     i: nat)
    requires ReadsRight(was, stored, leaves, max) && i < |leaves| && i !in was && Stored(stored, i)
    requires Refreshed(now, was, i, stored[i], max == 0)
    ensures ReadsRight(now, stored, leaves, max)
  {
  }

  /** One more leaf, cached and, where it is stored at all, stored as it is. */
  lemma AppendRight(now: map<nat, Bytes>, was: map<nat, Bytes>, after: map<nat, Bytes>, stored: map<nat, Bytes>,
                    leaves: seq<Digest>, leaf: Digest, max: nat)
    requires Refreshed<nat>(now, was, |leaves|, leaf, max == 0)
    requires forall i: nat :: i < |leaves| ==> (i in after <==> i in stored) && (i in after ==> after[i] == stored[i])
    ensures LeavesGood(was, leaves) ==> LeavesGood(now, leaves + [leaf])
    ensures max == 0 && AllCached(was, leaves) ==> AllCached(now, leaves + [leaf])
    ensures StoreGood(stored, leaves) && (Stored(after, |leaves|) ==> after[|leaves|] == leaf) ==>
              StoreGood(after, leaves + [leaf])
    ensures StoreFull(stored, leaves) && Stored(after, |leaves|) ==> StoreFull(after, leaves + [leaf])
  {
    assert forall i: nat :: i < |leaves| ==> (Stored(after, i) <==> Stored(stored, i));
  }

  lemma NodesGoodGrow(sha: Hasher, cached: map<NodeId, Bytes>, leaves: seq<Digest>, leaf: Digest)
    requires NodesGood(sha, cached, leaves)
    ensures NodesGood(sha, cached, leaves + [leaf])
  {
    hide Node;
    forall id | id in cached
      ensures CompleteIn(|leaves| + 1, id) && InTree(|leaves| + 1, id)
           && cached[id] == HashOf(sha, leaves + [leaf], |leaves| + 1, id)
    {
      NodeAfterAppend(sha, leaves, leaf, id.level, id.index);
      CompleteMonotone(|leaves|, |leaves| + 1, id.level);
    }
  }

  lemma HoldsSize(rng: Range, leaves: seq<Digest>)
    requires rng.Holds(leaves)
    ensures rng.end == |leaves|
  {
  }

  lemma SubRootUnfolds(sha: Hasher, hs: seq<Digest>, begin: nat, end: nat)
    requires begin < end <= |hs|
    ensures begin + 1 == end ==> SubRoot(sha, hs, begin, end) == hs[begin]
    ensures begin + 1 < end ==>
              var mid := begin + Split(end - begin);
              SubRoot(sha, hs, begin, end) == NodeHash(sha, SubRoot(sha, hs, begin, mid), SubRoot(sha, hs, mid, end))
  {
  }

  class Tree {
    const sha: Hasher
    const rng: Range
    const store: LeafStore
    const leafLru: Lru<nat>
    const internal: Lru<NodeId>
    ghost var leaves: seq<Digest>

    ghost function Caches(): set<object>
      reads leafLru, internal
    {
      {store, leafLru, internal} + leafLru.Elements() + internal.Elements()
    }

    /** No two parts of the tree share an object. */
    ghost predicate Separated()
      reads this, leafLru, internal
    {
      && this !in Caches() && rng !in Caches()
      && leafLru.Elements() !! internal.Elements()
      && leafLru !in leafLru.Elements() && internal !in leafLru.Elements() && store !in leafLru.Elements()
      && leafLru !in internal.Elements() && internal !in internal.Elements() && store !in internal.Elements()
    }

    /** The range and the interior cache are those of a tree over `leaves`, whatever leaves are cached and
        stored. */
    ghost predicate Built()
      reads this, rng, leafLru, leafLru.order, internal, internal.order
    {
      && rng.sha == sha && rng.Holds(leaves) && |leaves| <= TWO_TO_63
      && Separated() && leafLru.Valid() && internal.Valid()
      && NodesGood(sha, internal.Contents(), leaves)
    }

    /** Everything held in memory is right, whatever the store says. */
    ghost predicate Resident()
      reads this, rng, leafLru, leafLru.order, internal, internal.order
    {
      Built() && LeavesGood(leafLru.Contents(), leaves)
    }

    /** Every leaf read is right, now and after any further reads. */
    ghost predicate Right()
      reads this, rng, store, leafLru, leafLru.order, internal, internal.order
    {
      Built() && ReadsRight(leafLru.Contents(), store.leaves, leaves, leafLru.max)
    }

    /** Moreover an in-memory store has all leaves. */
    ghost predicate Valid()
      reads this, rng, store, leafLru, leafLru.order, internal, internal.order
    {
      Right() && (!store.durable ==> StoreFull(store.leaves, leaves))
    }

    /** The leaves the store cannot give. */
    ghost function Missing(): set<nat>
      reads this, store
    {
      set i | 0 <= i < |leaves| && !Stored(store.leaves, i)
    }

    /** What leaf `i` would read as now. */
    ghost function Reading(i: nat): Bytes
      requires leafLru.Valid()
      reads store, leafLru, leafLru.order
    {
      LeafValue(leafLru.Contents(), store.leaves, i)
    }

    /** `NewBoundedTreeWithStore`: an empty tree over a store, whatever that holds. */
    constructor (sha: Hasher, maxInternal: nat, maxLeaf: nat, store: LeafStore)
      ensures Valid() && Resident() && leaves == [] && this.sha == sha && this.store == store
      ensures leafLru.max == maxLeaf && internal.max == maxInternal && leafLru.Keys() == []
      ensures fresh(rng) && fresh(Caches() - {store})
    {
      hide Bijection, Range.Holds, HashOf;
      this.sha := sha;
      this.rng := new Range(sha);
      this.store := store;
      this.leafLru := new Lru(maxLeaf);
      this.internal := new Lru(maxInternal);
      this.leaves := [];
    }

    /** `Size`. */
    method Size() returns (size: nat)
      requires Built()
      ensures size == |leaves|
    {
      size := rng.end;
    }

    /** `Root`: the incremental root is the recursive RFC 6962 root, the empty root included, whatever the
        store holds. */
    method Root() returns (root: Digest)
      requires Built()
      ensures root == RootOf(sha, leaves)
    {
      if rng.end == 0 {
        return EmptyRoot(sha);
      }
      root := rng.GetRootHash(leaves);
    }

    /** `putLeaf`. */
    method PutLeaf(idx: nat, hash: Bytes)
      requires Separated() && leafLru.Valid() && internal.Valid()
      modifies store, leafLru, leafLru.Elements()
      ensures Separated() && leafLru.Valid() && fresh(leafLru.Elements() - old(leafLru.Elements()))
      ensures internal.Valid() && internal.Contents() == old(internal.Contents())
      ensures store.leaves == if store.durable then old(store.leaves) else old(store.leaves)[idx := hash]
      ensures leafLru.Keys() == Touched(old(leafLru.Keys()), idx, leafLru.max)
      ensures Refreshed(leafLru.Contents(), old(leafLru.Contents()), idx, hash, leafLru.max == 0)
    {
      hide Bijection, Touched, Refreshed;
      ghost var nodes := internal.Contents();
      store.PutLeafHash(idx, hash);
      leafLru.Put(idx, hash);
      assert internal.Contents() == nodes;
    }

    /** `AppendLeafHash`: memory follows whatever the store holds, and leaf reads stay right unless the
        store has another value for the new leaf. */
    method AppendLeafHash(leaf: Digest) returns (idx: nat)
      requires Built() && |leaves| < TWO_TO_63
      modifies this, rng, Caches()
      ensures Built() && fresh(Caches() - old(Caches()))
      ensures leaves == old(leaves) + [leaf] && idx == old(|leaves|)
      ensures store.leaves == if store.durable then old(store.leaves) else old(store.leaves)[idx := leaf]
      ensures leafLru.Keys() == Touched(old(leafLru.Keys()), idx, leafLru.max)
      ensures old(Resident()) ==> Resident()
      ensures old(Right()) && (Stored(store.leaves, idx) ==> store.leaves[idx] == leaf) ==> Right()
      ensures old(Valid()) && (Stored(store.leaves, idx) ==> store.leaves[idx] == leaf) ==> Valid()
    {
      hide HashOf, Range.Holds, Bijection, NodesGood, Touched, LeavesGood, StoreGood, StoreFull, AllCached, Refreshed;
      idx := rng.end;
      HoldsSize(rng, leaves);
      var visits := Grow(idx, leaf);
      AppendRight(leafLru.Contents(), old(leafLru.Contents()), store.leaves, old(store.leaves), old(leaves), leaf,
                  leafLru.max);
      PutVisits(visits);
    }

    /** The visitor of the range update: every node visited is cached. */
    method PutVisits(visits: seq<Visit>)
      requires Built()
      requires forall v :: v in visits ==> v.id.level > 0 && CompleteIn(|leaves|, v.id) && InTree(|leaves|, v.id)
                                           && v.hash == HashOf(sha, leaves, |leaves|, v.id)
      modifies internal, internal.Elements()
      ensures Built() && fresh(internal.Elements() - old(internal.Elements()))
      ensures leafLru.Contents() == old(leafLru.Contents())
    {
      hide HashOf, Range.Holds, Bijection, NodesGood, CompleteIn, InTree;
      for k := 0 to |visits|
        invariant Built() && fresh(internal.Elements() - old(internal.Elements()))
        invariant leafLru.Contents() == old(leafLru.Contents())
      {
        assert visits[k] in visits;
        PutInternal(visits[k]);
      }
    }

    /** The leaf's own record and the range update of an append. */
    method Grow(idx: nat, leaf: Digest) returns (visits: seq<Visit>)
      requires Built() && idx == |leaves| < TWO_TO_63
      modifies this, rng, store, leafLru, leafLru.Elements()
      ensures Built() && fresh(leafLru.Elements() - old(leafLru.Elements()))
      ensures leaves == old(leaves) + [leaf]
      ensures store.leaves == if store.durable then old(store.leaves) else old(store.leaves)[idx := leaf]
      ensures leafLru.Keys() == Touched(old(leafLru.Keys()), idx, leafLru.max)
      ensures Refreshed(leafLru.Contents(), old(leafLru.Contents()), idx, leaf, leafLru.max == 0)
      ensures forall v :: v in visits ==> v.id.level > 0 && CompleteIn(|leaves|, v.id) && InTree(|leaves|, v.id)
                                          && v.hash == HashOf(sha, leaves, |leaves|, v.id)
    {
      hide HashOf, Range.Holds, CompleteIn, InTree, Bijection, Touched, NodesGood, Refreshed;
      HoldsSize(rng, leaves);
      NodesGoodGrow(sha, internal.Contents(), leaves, leaf);
      PutLeaf(idx, leaf);
      ghost var now, nodes := leafLru.Contents(), internal.Contents();
      visits := rng.Append(leaf, leaves);
      assert leafLru.Contents() == now && internal.Contents() == nodes;
      leaves := leaves + [leaf];
      HoldsSize(rng, leaves);
    }

    /** `putNode` for an interior node. */
    method PutInternal(v: Visit)
      requires Built() && v.id.level > 0 && CompleteIn(|leaves|, v.id) && InTree(|leaves|, v.id)
      requires v.hash == HashOf(sha, leaves, |leaves|, v.id)
      modifies internal, internal.Elements()
      ensures Built() && fresh(internal.Elements() - old(internal.Elements()))
      ensures internal.Keys() == Touched(old(internal.Keys()), v.id, internal.max)
      ensures leafLru.Contents() == old(leafLru.Contents())
    {
      hide HashOf, Range.Holds, CompleteIn, InTree, Bijection, Touched;
      internal.Put(v.id, v.hash);
    }

    /** A read error, or a leaf that is neither cached nor stored. */
    ghost predicate ReadFailed(error: Failure, broken: set<nat>)
      reads this, store
    {
      || (error.ReadError? && error.idx < |leaves| && error.idx in broken)
      || (error.LeafMissing? && error.idx in Missing())
    }

    /** `nodeHash` of a leaf: from the cache, or through the store into the cache. */
    method LookupLeaf(idx: nat, broken: set<nat>) returns (r: Result<Bytes>)
      requires Built() && idx < |leaves|
      modifies store, leafLru, leafLru.Elements()
      ensures Built() && fresh(leafLru.Elements() - old(leafLru.Elements())) && store.leaves == old(store.leaves)
      ensures old(Right()) ==> Right()
      ensures r.Ok? <==> idx in old(leafLru.Contents()) || (idx !in broken && Stored(store.leaves, idx))
      ensures r.Ok? ==> r.value == old(Reading(idx)) && (old(Right()) ==> r.value == leaves[idx])
      ensures r.Err? ==> ReadFailed(r.error, broken)
    {
      hide Range.Holds, NodesGood, Bijection, Touched, ReadsRight, Refreshed;
      var cached, hash := leafLru.Get(idx);
      if old(Right()) && (idx in old(leafLru.Contents()) || Stored(store.leaves, idx)) {
        ReadRight(old(leafLru.Contents()), store.leaves, leaves, leafLru.max, idx);
      }
      if cached {
        return Ok(hash);
      }
      r := store.GetLeafHash(idx, broken);
      if r.Ok? {
        Promote(idx, r.value);
      }
    }

    /** A leaf read from the store goes into the cache. */
    method Promote(idx: nat, leaf: Bytes)
      requires Built() && Stored(store.leaves, idx) && store.leaves[idx] == leaf && idx < |leaves|
      requires idx !in leafLru.Contents()
      modifies store, leafLru, leafLru.Elements()
      ensures Built() && fresh(leafLru.Elements() - old(leafLru.Elements())) && store.leaves == old(store.leaves)
      ensures old(Right()) ==> Right()
    {
      hide Range.Holds, NodesGood, Bijection, Touched, ReadsRight, Refreshed;
      ghost var was := leafLru.Contents();
      assert store.leaves[idx := leaf] == store.leaves;
      PutLeaf(idx, leaf);
      if ReadsRight(was, store.leaves, leaves, leafLru.max) {
        PromoteRight(leafLru.Contents(), was, store.leaves, leaves, leafLru.max, idx);
      }
    }

    /** `nodeHash` of an interior node: from the cache only. */
    method LookupInternal(id: NodeId) returns (hit: bool, hash: Bytes)
      requires Built()
      modifies internal`order
      ensures Built() && internal.Elements() == old(internal.Elements()) && (old(Right()) ==> Right())
      ensures hit ==> InTree(|leaves|, id) && hash == HashOf(sha, leaves, |leaves|, id)
    {
      hide Range.Holds, ReadsRight, Bijection, HashOf, CompleteIn, InTree;
      hit, hash := internal.Get(id);
    }

    /** `subRoot`: the root over leaves `[begin, end)`, recomputed from the leaves. The doubling loop
        stays below 2^64 because the tree has at most 2^63 leaves. */
    method RecomputeRange(begin: nat, end: nat, broken: set<nat>) returns (r: Result<Bytes>)
      requires Built() && begin < end <= |leaves|
      modifies store, leafLru, leafLru.Elements()
      ensures Built() && fresh(leafLru.Elements() - old(leafLru.Elements())) && store.leaves == old(store.leaves)
      ensures old(Right()) ==> Right()
      ensures r.Ok? && old(Right()) ==> r.value == SubRoot(sha, leaves, begin, end)
      ensures r.Err? ==> ReadFailed(r.error, broken)
      decreases end - begin
    {
      hide Range.Holds, Separated, SubRoot, NodesGood, ReadsRight, Bijection, Missing;
      SubRootUnfolds(sha, leaves, begin, end);
      if begin + 1 == end {
        r := LookupLeaf(begin, broken);
        return;
      }
      var span := end - begin;
      var k := 1;
      while k * 2 < span
        invariant 0 < k < span && SplitFrom(k, span) == Split(span) && k * 2 < TWO_TO_64
        decreases span - k
      {
        k := k * 2;
      }
      var left := RecomputeRange(begin, begin + k, broken);
      if left.Err? {
        return left;
      }
      var right := RecomputeRange(begin + k, end, broken);
      if right.Err? {
        return right;
      }
      r := Ok(NodeHash(sha, left.value, right.value));
    }

    /** `nodeHash`, falling back to `computeNode`: rehash an evicted node from its leaf range, cut
        off at the end of the tree. */
    method NodeOf(id: NodeId, broken: set<nat>) returns (r: Result<Bytes>)
      requires Built() && InTree(|leaves|, id)
      modifies Caches()
      ensures Built() && fresh(Caches() - old(Caches())) && store.leaves == old(store.leaves)
      ensures old(Right()) ==> Right()
      ensures r.Ok? && old(Right()) ==> r.value == HashOf(sha, leaves, |leaves|, id)
      ensures r.Ok? && id.level == 0 ==> r.value == old(Reading(id.index))
      ensures r.Err? ==> ReadFailed(r.error, broken)
    {
      hide Range.Holds, NodesGood, ReadsRight, Bijection, Missing;
      if id.level == 0 {
        LeafNode(sha, leaves, |leaves|, id.index);
        r := LookupLeaf(id.index, broken);
      } else {
        var hit, hash := LookupInternal(id);
        if hit {
          return Ok(hash);
        }
        var begin, end := RangeBegin(id.level, id.index), RangeBegin(id.level, id.index + 1);
        HoldsSize(rng, leaves);
        if end > rng.end {
          end := rng.end;
        }
        NodeIsSubRoot(sha, leaves, |leaves|, id.level, id.index, begin, end);
        r := RecomputeRange(begin, end, broken);
      }
    }

    /** `materialise`: with right leaf reads, the nodes' own hashes. A leaf listed first is given as it
        reads. */
    method Materialise(nodes: Nodes, ghost size: nat, broken: set<nat>)
      returns (r: Result<seq<Bytes>>, ghost hashes: seq<Bytes>)
      requires Built() && nodes.Shaped() && size <= |leaves|
      requires forall id :: id in nodes.ids ==> CompleteIn(size, id) && InTree(size, id)
      modifies Caches()
      ensures Built() && fresh(Caches() - old(Caches())) && store.leaves == old(store.leaves)
      ensures old(Right()) ==> Right()
      ensures r.Ok? ==> |hashes| == |nodes.ids| && r.value == Rehash(sha, nodes, hashes)
      ensures r.Ok? && old(Right()) ==> hashes == HashesOf(sha, leaves, size, nodes.ids)
      ensures r.Ok? && |nodes.ids| > 0 && nodes.ids[0].level == 0 ==> hashes[0] == old(Reading(nodes.ids[0].index))
      ensures r.Err? ==> ReadFailed(r.error, broken)
    {
      hide Range.Holds, NodesGood, ReadsRight, Separated, HashOf, Rehash, CompleteIn, InTree, Bijection, Missing,
        LeafValue;
      var read := [];
      for k := 0 to |nodes.ids|
        invariant Built() && fresh(Caches() - old(Caches())) && store.leaves == old(store.leaves) && |read| == k
        invariant old(Right()) ==> Right()
        invariant old(Right()) ==> forall j :: 0 <= j < k ==> read[j] == HashOf(sha, leaves, size, nodes.ids[j])
        invariant k > 0 && nodes.ids[0].level == 0 ==> read[0] == old(Reading(nodes.ids[0].index))
        invariant k == 0 ==> leafLru.Contents() == old(leafLru.Contents())
      {
        var id := nodes.ids[k];
        assert id in nodes.ids;
        StableHash(sha, leaves, size, id);
        var h := NodeOf(id, broken);
        if h.Err? {
          return Err(h.error), [];
        }
        read := read + [h.value];
      }
      return Ok(Rehash(sha, nodes, read)), read;
    }

    /** `InclusionProof`: for every cap and every cache state, the RFC audit path if leaf reads are right. */
    method InclusionProof(idx: nat, treeSize: nat, broken: set<nat>)
      returns (r: Result<seq<Bytes>>, ghost hashes: seq<Bytes>)
      requires Built()
      modifies Caches()
      ensures Built() && fresh(Caches() - old(Caches())) && store.leaves == old(store.leaves)
      ensures old(Right()) ==> Right()
      ensures r == Err(OutOfRange) <==> treeSize > |leaves| || idx >= treeSize
      ensures r.Ok? && old(Right()) ==> r.value == AuditPath(sha, leaves, idx, 0, treeSize)
      ensures r.Ok? ==> Rehashed(InclusionNodes(idx, treeSize), r.value, hashes)
      ensures r.Ok? ==> var ids := InclusionNodes(idx, treeSize).ids;
                        |ids| > 0 && ids[0].level == 0 ==> hashes[0] == old(Reading(ids[0].index))
      ensures r.Err? && r.error != OutOfRange ==> ReadFailed(r.error, broken)
    {
      hide Range.Holds, NodesGood, ReadsRight, Separated, Rehash, HashesOf, AuditPath, HashOf, Bijection, Missing;
      HoldsSize(rng, leaves);
      if treeSize > rng.end || idx >= treeSize {
        return Err(OutOfRange), [];
      }
      InclusionNodesGiveAuditPath(sha, leaves, idx, treeSize);
      r, hashes := Materialise(InclusionNodes(idx, treeSize), treeSize, broken);
    }

    /** The proof is the rehashed list of the hashes that were read. */
    ghost predicate Rehashed(nodes: Nodes, proof: seq<Bytes>, hashes: seq<Bytes>)
    {
      nodes.Shaped() && |hashes| == |nodes.ids| && proof == Rehash(sha, nodes, hashes)
    }

    /** `ConsistencyProof`: empty for a zero or equal old size, otherwise the RFC proof. */
    method ConsistencyProof(oldSize: nat, newSize: nat, broken: set<nat>) returns (r: Result<seq<Bytes>>)
      requires Built()
      modifies Caches()
      ensures Built() && fresh(Caches() - old(Caches())) && store.leaves == old(store.leaves)
      ensures old(Right()) ==> Right()
      ensures r == Err(OutOfRange) <==> oldSize > newSize || newSize > |leaves|
      ensures r.Ok? && old(Right()) ==>
                r.value == if oldSize == 0 || oldSize == newSize then []
                           else SubProof(sha, leaves, oldSize, 0, newSize, true)
      ensures r.Err? && r.error != OutOfRange ==> ReadFailed(r.error, broken)
    {
      hide Range.Holds, NodesGood, ReadsRight, Separated, Rehash, HashesOf, SubProof, HashOf, Bijection, Missing;
      HoldsSize(rng, leaves);
      if oldSize > newSize || newSize > rng.end {
        return Err(OutOfRange);
      }
      if oldSize == 0 || oldSize == newSize {
        return Ok([]);
      }
      ConsistencyNodesGiveSubProof(sha, leaves, oldSize, newSize);
      ghost var hashes;
      r, hashes := Materialise(ConsistencyNodes(oldSize, newSize), newSize, broken);
    }
  }

  lemma ValidParts(tree: Tree)
    requires tree.Valid()
    ensures tree.Resident() && tree.Right() && tree.Built()
    ensures !tree.store.durable ==> StoreFull(tree.store.leaves, tree.leaves)
  {
    hide NodesGood, LeavesGood, StoreGood, StoreFull, Bijection, Range.Holds;
  }

  lemma StableHash(sha: Hasher, leaves: seq<Digest>, size: nat, id: NodeId)
    requires size <= |leaves| && CompleteIn(size, id)
    ensures InTree(size, id) && InTree(|leaves|, id)
    ensures HashOf(sha, leaves, size, id) == HashOf(sha, leaves, |leaves|, id)
  {
    CompleteNodeStable(sha, leaves, size, |leaves|, id.level, id.index);
  }

  /** A proof the tree answers is accepted against the root it had at that size. */
  lemma AnsweredProofsVerify(sha: Hasher, leaves: seq<Digest>, idx: nat, oldSize: nat, size: nat)
    requires idx < size <= |leaves| && oldSize <= size
    ensures Accepts(sha, idx, size - 1, leaves[idx], AuditPath(sha, leaves, idx, 0, size), RootOf(sha, leaves[..size]))
    ensures var proof := if oldSize == 0 || oldSize == size then [] else SubProof(sha, leaves, oldSize, 0, size, true);
            ConsistencyAccepts(sha, oldSize, size, proof, RootOf(sha, leaves[..oldSize]), RootOf(sha, leaves[..size]))
  {
    hide SubRoot, AuditPath, SubProof, Accepts, AcceptsPair, StripOnes, IsPowerOfTwo;
    InclusionComplete(sha, leaves, size, idx);
    SubRootPrefix(sha, leaves, leaves[..size], 0, size);
    if 0 < oldSize {
      SubRootPrefix(sha, leaves, leaves[..oldSize], 0, oldSize);
      if oldSize < size {
        ConsistencyComplete(sha, leaves, oldSize, size);
      }
    }
  }
}
