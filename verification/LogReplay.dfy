/** `core.New`: the tree is rebuilt from the stored entries at every start. What that checks, and what it
    leaves unchecked, is exact for any files. */
module LogReplay {
  import opened Encoding
  import opened Hashing
  import opened Options
  import opened LogEntry
  import Attest
  import opened MerkleTree
  import opened Storage
  import opened LruCache
  import opened CoreLog
  import CompactRange

  /** The mirror kept the leaves it had, and gained leaf hashes of the log only. */
  ghost predicate Backfilled(leaves: map<nat, Bytes>, was: map<nat, Bytes>, log: seq<Entry>)
  {
    && (forall k: nat :: Stored(was, k) ==> Stored(leaves, k) && leaves[k] == was[k])
    && (forall k: nat :: Stored(leaves, k) && !Stored(was, k) ==> k < |log| && leaves[k] == log[k].leafHash)
  }

  ghost predicate AllMirrored(leaves: map<nat, Bytes>, n: nat) { forall k: nat :: k < n ==> Stored(leaves, k) }

  lemma {:induction false} ScanTo(entries: map<nat, Entry>, from: nat, k: nat, bound: nat)
    requires IsNext(entries, from, Some(k)) && k < bound
    ensures Scan(entries, from, bound) == [entries[k]] + Scan(entries, k + 1, bound)
    decreases k - from
  {
    if from < k {
      ScanTo(entries, from + 1, k, bound);
    }
  }

  lemma {:induction false} ScanNothing(entries: map<nat, Entry>, from: nat, bound: nat)
    requires IsNext(entries, from, None)
    ensures Scan(entries, from, bound) == []
    decreases bound - from
  {
    if from < bound {
      ScanNothing(entries, from + 1, bound);
    }
  }

  lemma {:induction false} ScanTable(entries: map<nat, Entry>, log: seq<Entry>, from: nat)
    requires Tabulates(entries, log) && from <= |log|
    ensures Scan(entries, from, |log|) == log[from..]
    decreases |log| - from
  {
    if from < |log| {
      ScanTable(entries, log, from + 1);
    }
  }

  /** `done` is what the scan has passed when it stands at key `from`. */
  ghost predicate ScannedTo(entries: map<nat, Entry>, bound: nat, all: seq<Entry>, done: seq<Entry>, from: nat)
  {
    from <= bound && all == done + Scan(entries, from, bound)
  }

  lemma ScanStarts(entries: map<nat, Entry>, bound: nat, all: seq<Entry>)
    requires IsScan(entries, bound, all)
    ensures ScannedTo(entries, bound, all, [], 0) && |all| <= TWO_TO_63
  {
    hide Scan;
    assert [] + Scan(entries, 0, bound) == Scan(entries, 0, bound);
  }

  /** Taking the entry at key `k`. */
  lemma ScanAdvance(sha: Hasher, entries: map<nat, Entry>, all: seq<Entry>, done: seq<Entry>, from: nat, k: nat,
                    bound: nat)
    requires IsNext(entries, from, Some(k)) && IsScan(entries, bound, all) && VerifiedChain(sha, done)
    requires ScannedTo(entries, bound, all, done, from)
    ensures k in entries && from <= k < bound && |done| < |all| && done <= all
    ensures ScannedTo(entries, bound, all, done + [entries[k]], k + 1)
    ensures VerifiedChain(sha, all) ==> SelfVerifies(sha, entries[k]) && Follows(Before(done, |done|), entries[k])
  {
    hide SelfVerifies, Follows, VerifiedChain, Scan;
    NextIn(entries, from, k, bound);
    ScanTo(entries, from, k, bound);
    var rest := Scan(entries, k + 1, bound);
    assert done + ([entries[k]] + rest) == done + [entries[k]] + rest;
    ScanStep(sha, all, done, entries[k], rest);
  }

  lemma ScanEnds(entries: map<nat, Entry>, bound: nat, all: seq<Entry>, done: seq<Entry>, from: nat)
    requires ScannedTo(entries, bound, all, done, from) && IsNext(entries, from, None)
    ensures all == done
  {
    hide Scan;
    ScanNothing(entries, from, bound);
  }

  /** One entry further: the whole scan verifies only if this entry does. */
  lemma ScanStep(sha: Hasher, all: seq<Entry>, done: seq<Entry>, e: Entry, rest: seq<Entry>)
    requires all == done + ([e] + rest) && VerifiedChain(sha, done)
    ensures VerifiedChain(sha, all) ==> SelfVerifies(sha, e) && Follows(Before(done, |done|), e)
  {
    hide SelfVerifies, Follows;
    if VerifiedChain(sha, all) {
      ChainPrefix(sha, all, |done| + 1);
      assert all[..|done| + 1] == done + [e];
      ChainExtends(sha, done, e);
    }
  }

  lemma BackfilledStep(leaves: map<nat, Bytes>, was: map<nat, Bytes>, done: seq<Entry>, e: Entry)
    requires Backfilled(leaves, was, done) && AllMirrored(leaves, |done|) && e.leafHash != []
    ensures var filled := if Stored(leaves, |done|) then leaves else leaves[|done| := e.leafHash];
            Backfilled(filled, was, done + [e]) && AllMirrored(filled, |done| + 1)
  {
    var n, filled := |done|, leaves[|done| := e.leafHash];
    assert forall k: nat :: k != n ==> (Stored(filled, k) <==> Stored(leaves, k));
  }

  lemma BackfilledMore(leaves: map<nat, Bytes>, was: map<nat, Bytes>, done: seq<Entry>, all: seq<Entry>)
    requires Backfilled(leaves, was, done) && done <= all
    ensures Backfilled(leaves, was, all)
  {
  }

  /** What was in the mirror before decides whether it agrees after. */
  lemma BackfillKeepsAgreement(leaves: map<nat, Bytes>, was: map<nat, Bytes>, log: seq<Entry>)
    requires Backfilled(leaves, was, log)
    ensures MirrorAgrees(leaves, log) <==> MirrorAgrees(was, log)
  {
  }

  lemma AgreesMeansGood(leaves: map<nat, Bytes>, treeLeaves: seq<Digest>, log: seq<Entry>)
    requires BuiltFrom(treeLeaves, log)
    ensures StoreGood(leaves, treeLeaves) <==> MirrorAgrees(leaves, log)
  {
  }

  /** The leaves resident after `n` appends, most recent first. */
  ghost function Recent(n: nat, cap: nat): seq<nat>
  {
    if n == 0 then []
    else
      var last: nat := n - 1;
      Touched<nat>(Recent(last, cap), last, cap)
  }

  /** The `m` numbers below `n`, downwards. */
  ghost function Downwards(n: nat, m: nat): seq<nat>
    requires m <= n
  {
    seq(m, i requires 0 <= i < m => n - 1 - i)
  }

  ghost function Residency(n: nat, cap: nat): nat { if 0 < cap < n then cap else n }

  /** The resident leaves are the last ones, as many as the cap allows. */
  lemma {:induction false} RecentAreLast(n: nat, cap: nat)
    ensures Recent(n, cap) == Downwards(n, Residency(n, cap))
  {
    if n > 0 {
      var last: nat := n - 1;
      var keys := Recent(last, cap);
      RecentAreLast(last, cap);
      assert last !in keys;
      WithoutAbsent(keys, last);
      assert [last] + keys == Downwards(n, Residency(last, cap) + 1);
    }
  }

  /** A replayed tree has exactly those leaves in memory. */
  lemma CachedIsRecent(tree: Tree, n: nat, k: nat)
    requires tree.leafLru.Valid() && tree.leafLru.Keys() == Recent(n, tree.leafLru.max)
    ensures k in tree.leafLru.Contents() <==> k < n && (0 < tree.leafLru.max ==> n <= k + tree.leafLru.max)
  {
    hide Recent;
    RecentAreLast(n, tree.leafLru.max);
    var keys := tree.leafLru.Keys();
    if k in tree.leafLru.Contents() {
      var e := tree.leafLru.index[k];
      assert e in tree.leafLru.order && e.key == k;
      var i :| 0 <= i < |tree.leafLru.order| && tree.leafLru.order[i] == e;
      assert keys[i] == k;
    }
    if k < n && (0 < tree.leafLru.max ==> n <= k + tree.leafLru.max) {
      assert keys[n - 1 - k] == k;
      assert tree.leafLru.order[n - 1 - k].key == k;
    }
  }

  /** Backfilling a missing leaf leaves memory alone. */
  method Backfill(store: Store, tree: Tree, idx: nat, leaf: Digest)
    requires tree.Resident() && tree.store == store.leafDb && store !in tree.Caches()
    modifies store.leafDb
    ensures tree.Resident() && tree.leafLru.Keys() == old(tree.leafLru.Keys())
    ensures store.leafDb.leaves == if Stored(old(store.leafDb.leaves), idx) then old(store.leafDb.leaves)
                                   else old(store.leafDb.leaves)[idx := leaf]
  {
    hide NodesGood, LeavesGood, Bijection, CompactRange.Range.Holds;
    var there := store.leafDb.GetLeafHash(idx, {});
    if there.Err? {
      store.PutLeafHash(idx, leaf, true);
    }
  }

  /** What stays fixed about the tree and its store while a log is replayed into it. */
  ghost predicate Replaying(store: Store, tree: Tree, done: seq<Entry>)
    reads tree, tree.rng, tree.leafLru, tree.leafLru.order, tree.internal, tree.internal.order
  {
    && tree.Resident() && tree.store == store.leafDb && tree.store.durable
    && store !in tree.Caches() && tree !in tree.Caches()
    && BuiltFrom(tree.leaves, done)
    && tree.leafLru.Keys() == Recent(|done|, tree.leafLru.max)
  }

  /** The mirror check and the tree's append for one replayed entry. */
  method TakeLeaf(store: Store, tree: Tree, leaf: Digest, works: bool, ghost done: seq<Entry>,
                  ghost e: Entry) returns (ok: bool)
    requires Replaying(store, tree, done) && |done| < TWO_TO_63 && e.leafHash == leaf
    modifies tree, tree.rng, tree.Caches()
    ensures Replaying(store, tree, if ok then done + [e] else done) && fresh(tree.Caches() - old(tree.Caches()))
    ensures ok == works
    ensures store.leafDb.leaves == if !ok || Stored(old(store.leafDb.leaves), |done|) then old(store.leafDb.leaves)
                                   else old(store.leafDb.leaves)[|done| := leaf]
  {
    hide Tree.Built, BuiltFrom, Touched, Tree.Right;
    ok := works;
    if !ok {
      return;
    }
    TreeSize(tree.leaves, done);
    BuiltFromAppend(tree.leaves, done, e, leaf);
    CompactSize(tree);
    Backfill(store, tree, tree.rng.end, leaf);
    var _ := tree.AppendLeafHash(leaf);
  }

  lemma CompactSize(tree: Tree)
    requires tree.Resident()
    ensures tree.rng.end == |tree.leaves|
  {
    HoldsSize(tree.rng, tree.leaves);
  }

  /** Everything the replay has established after `done`. */
  ghost predicate Replayed(sha: Hasher, store: Store, tree: Tree, done: seq<Entry>, was: map<nat, Bytes>,
                           broken: set<nat>)
    reads store, store.leafDb
    reads tree, tree.rng, tree.leafLru, tree.leafLru.order, tree.internal, tree.internal.order
  {
    && Replaying(store, tree, done) && VerifiedChain(sha, done)
    && Backfilled(store.leafDb.leaves, was, done) && AllMirrored(store.leafDb.leaves, |done|)
    && Accessible(|done|, broken)
  }

  /** One entry of the replay. */
  method ReplayOne(sha: Hasher, store: Store, tree: Tree, prev: Option<Entry>, e: Entry, broken: set<nat>,
                   ghost done: seq<Entry>, ghost was: map<nat, Bytes>)
    returns (ok: bool)
    requires Replayed(sha, store, tree, done, was, broken) && prev == Before(done, |done|) && |done| < TWO_TO_63
    modifies tree, tree.rng, tree.Caches()
    ensures Replayed(sha, store, tree, if ok then done + [e] else done, was, broken)
    ensures fresh(tree.Caches() - old(tree.Caches()))
    ensures ok <==> SelfVerifies(sha, e) && Follows(prev, e) && |done| !in broken
  {
    hide VerifiedChain, EntryBytes, Attest.Verifies, Backfilled, AllMirrored, Follows, Replaying;
    if !SelfVerifies(sha, e) || !Follows(prev, e) {
      return false;
    }
    NextFits(sha, done, e);
    ChainExtends(sha, done, e);
    BackfilledStep(store.leafDb.leaves, was, done, e);
    ok := TakeLeaf(store, tree, e.leafHash, e.index !in broken, done, e);
  }

  /** `replay` into a new tree: accepts exactly an entry table whose scan is a verified chain, whatever the
      mirror holds, fills in missing leaves and builds the tree over the entries' leaf hashes, so its
      root is the log's. A mirrored leaf is never compared: leaf reads are right, and stay so, exactly when
      no leaf is ever evicted or the mirror agreed with the entries. `broken` are the leaf keys whose
      access fails. */
  method Replay(sha: Hasher, store: Store, maxInternal: nat, maxLeaf: nat, broken: set<nat>, ghost bound: nat,
                ghost all: seq<Entry>)
    returns (r: Option<Tree>)
    requires store.leafDb.durable && IsScan(store.entries, bound, all)
    modifies store.leafDb
    ensures r.Some? <==> VerifiedChain(sha, all) && Accessible(|all|, broken)
    ensures r.Some? ==> Replaying(store, r.value, all) && r.value.sha == sha && r.value.leafLru.max == maxLeaf
    ensures r.Some? ==> fresh(r.value) && fresh(r.value.rng) && fresh(r.value.Caches() - {store.leafDb})
    ensures r.Some? ==> AllMirrored(store.leafDb.leaves, |all|)
    ensures r.Some? ==> (r.value.Right() <==> maxLeaf == 0 || MirrorAgrees(old(store.leafDb.leaves), all))
    ensures Backfilled(store.leafDb.leaves, old(store.leafDb.leaves), all)
  {
    hide VerifiedChain, Tree.Right, Replaying, MirrorAgrees, IsScan, Underway, Backfilled, AllMirrored, Accessible,
      IsNext;
    var first := store.Seek(0);
    var tree := StartReplay(sha, store, maxInternal, maxLeaf, first, broken, bound, all);
    var ok := ReplayEntries(sha, store, tree, first, broken, bound, all, store.leafDb.leaves);
    r := if ok then Some(tree) else None;
  }

  /** The loop of `replay`, over the keys in order. */
  method ReplayEntries(sha: Hasher, store: Store, tree: Tree, first: Option<nat>, broken: set<nat>, ghost bound: nat,
                       ghost all: seq<Entry>, ghost was: map<nat, Bytes>) returns (ok: bool)
    requires IsScan(store.entries, bound, all)
    requires Underway(sha, store, tree, None, first, broken, bound, all, [], 0, was)
    modifies tree, tree.rng, tree.Caches()
    ensures fresh(tree.Caches() - old(tree.Caches()))
    ensures ok <==> VerifiedChain(sha, all) && Accessible(|all|, broken)
    ensures ok ==> Replaying(store, tree, all) && AllMirrored(store.leafDb.leaves, |all|)
    ensures ok ==> (tree.Right() <==> tree.leafLru.max == 0 || MirrorAgrees(was, all))
    ensures Backfilled(store.leafDb.leaves, was, all)
  {
    hide VerifiedChain, Tree.Right, Replaying, MirrorAgrees, IsScan, Underway, Backfilled, AllMirrored, Accessible;
    ghost var done: seq<Entry>, from := [], 0;
    var prev: Option<Entry>, next := None, first;
    while next.Some?
      invariant Underway(sha, store, tree, prev, next, broken, bound, all, done, from, was)
      invariant from <= bound && fresh(tree.Caches() - old(tree.Caches()))
      decreases bound - from
    {
      ghost var k := next.value;
      prev, next := ReplayKey(sha, store, tree, prev, next.value, broken, bound, all, done, from, was);
      if prev.None? {
        return false;
      }
      done := done + [prev.value];
      from := k + 1;
    }
    ReplayEnds(sha, store, tree, prev, broken, bound, all, done, from, was);
    return true;
  }

  /** Where the replay stands: `done` is replayed, and `next` is the first key from `from` on. */
  ghost predicate Underway(sha: Hasher, store: Store, tree: Tree, prev: Option<Entry>, next: Option<nat>,
                           broken: set<nat>, bound: nat, all: seq<Entry>, done: seq<Entry>, from: nat,
                           was: map<nat, Bytes>)
    reads store, store.leafDb
    reads tree, tree.rng, tree.leafLru, tree.leafLru.order, tree.internal, tree.internal.order
  {
    && Replayed(sha, store, tree, done, was, broken) && prev == Before(done, |done|)
    && ScannedTo(store.entries, bound, all, done, from) && IsNext(store.entries, from, next)
  }

  /** An empty tree to replay into. */
  method StartReplay(sha: Hasher, store: Store, maxInternal: nat, maxLeaf: nat, ghost next: Option<nat>,
                     ghost broken: set<nat>, ghost bound: nat, ghost all: seq<Entry>)
    returns (tree: Tree)
    requires store.leafDb.durable && IsScan(store.entries, bound, all) && IsNext(store.entries, 0, next)
    ensures Underway(sha, store, tree, None, next, broken, bound, all, [], 0, store.leafDb.leaves)
    ensures tree.sha == sha && tree.leafLru.max == maxLeaf
    ensures fresh(tree) && fresh(tree.rng) && fresh(tree.Caches() - {store.leafDb})
  {
    hide Tree.Right, Tree.Resident, Replaying, Replayed, ScannedTo, IsNext;
    tree := new Tree(sha, maxInternal, maxLeaf, store.leafDb);
    ScanStarts(store.entries, bound, all);
    EmptyReplaying(store, tree);
    NothingReplayed(sha, store, tree, broken);
  }

  lemma ReplayEnds(sha: Hasher, store: Store, tree: Tree, prev: Option<Entry>, broken: set<nat>, bound: nat,
                   all: seq<Entry>, done: seq<Entry>, from: nat, was: map<nat, Bytes>)
    requires Underway(sha, store, tree, prev, None, broken, bound, all, done, from, was)
    ensures Replaying(store, tree, all) && VerifiedChain(sha, all) && Accessible(|all|, broken)
    ensures Backfilled(store.leafDb.leaves, was, all) && AllMirrored(store.leafDb.leaves, |all|)
    ensures tree.Right() <==> tree.leafLru.max == 0 || MirrorAgrees(was, all)
  {
    hide VerifiedChain, Tree.Right, Replaying, MirrorAgrees, ScannedTo, Backfilled, AllMirrored, Accessible, IsNext;
    ScanEnds(store.entries, bound, all, done, from);
    ReplayedIff(store, tree, was, all);
  }

  /** The entry at the next key: taken, or proof that the replay must fail. */
  method ReplayKey(sha: Hasher, store: Store, tree: Tree, prev: Option<Entry>, k: nat, broken: set<nat>,
                   ghost bound: nat, ghost all: seq<Entry>, ghost done: seq<Entry>, ghost from: nat,
                   ghost was: map<nat, Bytes>)
    returns (e: Option<Entry>, next: Option<nat>)
    requires Underway(sha, store, tree, prev, Some(k), broken, bound, all, done, from, was)
    requires IsScan(store.entries, bound, all)
    modifies tree, tree.rng, tree.Caches()
    ensures fresh(tree.Caches() - old(tree.Caches()))
    ensures from <= k < bound
    ensures e.Some? ==> Underway(sha, store, tree, e, next, broken, bound, all, done + [e.value], k + 1, was)
    ensures e.None? ==> Backfilled(store.leafDb.leaves, was, all)
    ensures e.None? ==> !(VerifiedChain(sha, all) && Accessible(|all|, broken))
  {
    hide VerifiedChain, SelfVerifies, Follows, IsNext, Replaying, ScannedTo, Backfilled, AllMirrored, Replayed,
      Accessible;
    ReplayedParts(sha, store, tree, done, was, broken);
    ScanAdvance(sha, store.entries, all, done, from, k, bound);
    var entry := store.entries[k];
    var taken := ReplayOne(sha, store, tree, prev, entry, broken, done, was);
    ReplayedParts(sha, store, tree, if taken then done + [entry] else done, was, broken);
    if !taken {
      BackfilledMore(store.leafDb.leaves, was, done, all);
      NotAccessible(|done|, |all|, broken);
      return None, None;
    }
    e := Some(entry);
    next := store.Seek(k + 1);
  }

  lemma ReplayedParts(sha: Hasher, store: Store, tree: Tree, done: seq<Entry>, was: map<nat, Bytes>,
                      broken: set<nat>)
    requires Replayed(sha, store, tree, done, was, broken)
    ensures Replaying(store, tree, done) && VerifiedChain(sha, done) && Accessible(|done|, broken)
    ensures Backfilled(store.leafDb.leaves, was, done) && AllMirrored(store.leafDb.leaves, |done|)
  {
  }

  /** `all` are the stored entries in key order, few enough for a tree; `bound` is above every key. */
  ghost predicate IsScan(entries: map<nat, Entry>, bound: nat, all: seq<Entry>)
  {
    all == Scan(entries, 0, bound) && |all| <= TWO_TO_63 && forall k :: k in entries ==> k < bound
  }

  /** No access to the first `n` leaves fails. */
  ghost predicate Accessible(n: nat, broken: set<nat>) { forall i :: 0 <= i < n ==> i !in broken }

  lemma ReplayedIff(store: Store, tree: Tree, was: map<nat, Bytes>, all: seq<Entry>)
    requires Replaying(store, tree, all) && Backfilled(store.leafDb.leaves, was, all)
    ensures tree.Right() <==> tree.leafLru.max == 0 || MirrorAgrees(was, all)
  {
    hide NodesGood, CompactRange.Range.Holds, Bijection, BuiltFrom, Backfilled, MirrorAgrees, Recent, LeavesGood,
      StoreGood;
    TreeSize(tree.leaves, all);
    forall k: nat
      ensures tree.leafLru.max == 0 && k < |all| ==> k in tree.leafLru.Contents()
    {
      CachedIsRecent(tree, |all|, k);
    }
    AgreesMeansGood(store.leafDb.leaves, tree.leaves, all);
    BackfillKeepsAgreement(store.leafDb.leaves, was, all);
  }

  lemma NextIn(entries: map<nat, Entry>, from: nat, k: nat, bound: nat)
    requires IsNext(entries, from, Some(k)) && forall j :: j in entries ==> j < bound
    ensures k in entries && from <= k < bound
  {
  }

  lemma NotAccessible(n: nat, all: nat, broken: set<nat>)
    ensures n < all && n in broken ==> !Accessible(all, broken)
  {
  }

  lemma NothingReplayed(sha: Hasher, store: Store, tree: Tree, broken: set<nat>)
    requires Replaying(store, tree, [])
    ensures Replayed(sha, store, tree, [], store.leafDb.leaves, broken)
  {
    hide Replaying;
  }

  lemma EmptyReplaying(store: Store, tree: Tree)
    requires tree.Resident() && tree.leaves == [] && tree.leafLru.Keys() == []
    requires tree.store == store.leafDb && tree.store.durable && store !in tree.Caches()
    ensures Replaying(store, tree, [])
  {
    hide NodesGood, LeavesGood, Bijection, CompactRange.Range.Holds;
  }

  /** Every entry is stored under its own index. */
  ghost predicate KeyedByIndex(entries: map<nat, Entry>) { forall k :: k in entries ==> entries[k].index == k }

  /** From key `from` on, the table is `rest`. */
  ghost predicate TableFrom(entries: map<nat, Entry>, from: nat, bound: nat, rest: seq<Entry>)
  {
    && (forall k :: from <= k < bound ==> (k in entries <==> k < from + |rest|))
    && (forall k :: from <= k < from + |rest| ==> k in entries && entries[k] == rest[k - from])
  }

  ghost predicate CountsFrom(rest: seq<Entry>, from: nat) { forall i :: 0 <= i < |rest| ==> rest[i].index == from + i }

  lemma TableStep(entries: map<nat, Entry>, from: nat, bound: nat, more: seq<Entry>)
    requires from in entries && from < bound && TableFrom(entries, from + 1, bound, more)
    ensures TableFrom(entries, from, bound, [entries[from]] + more)
  {
  }

  lemma CountsTail(e: Entry, more: seq<Entry>, from: nat)
    requires CountsFrom([e] + more, from)
    ensures CountsFrom(more, from + 1)
  {
    forall i | 0 <= i < |more|
      ensures more[i].index == from + 1 + i
    {
      assert more[i] == ([e] + more)[i + 1];
    }
  }

  /** A scan that counts up is the table it was read from. */
  lemma {:induction false} ScanTells(entries: map<nat, Entry>, from: nat, bound: nat)
    requires KeyedByIndex(entries) && from <= bound && CountsFrom(Scan(entries, from, bound), from)
    ensures TableFrom(entries, from, bound, Scan(entries, from, bound))
    decreases bound - from
  {
    if from < bound {
      hide TableFrom, CountsFrom, KeyedByIndex;
      var more := Scan(entries, from + 1, bound);
      if from in entries {
        CountsTail(entries[from], more, from);
        ScanTells(entries, from + 1, bound);
        TableStep(entries, from, bound, more);
      } else {
        assert Scan(entries, from, bound) == more;
        NothingCounts(entries, from, bound, more);
      }
    }
  }

  lemma NothingCounts(entries: map<nat, Entry>, from: nat, bound: nat, more: seq<Entry>)
    requires KeyedByIndex(entries) && from < bound && from !in entries && more == Scan(entries, from + 1, bound)
    requires CountsFrom(more, from)
    ensures TableFrom(entries, from, bound, more)
  {
    hide Scan;
    if more != [] {
      assert more[0].index == from + 0;
      ScanAbove(entries, from + 1, bound, 0);
    } else {
      EmptyScan(entries, from + 1, bound);
    }
  }

  lemma {:induction false} EmptyScan(entries: map<nat, Entry>, from: nat, bound: nat)
    requires Scan(entries, from, bound) == []
    ensures forall k :: from <= k < bound ==> k !in entries
    decreases bound - from
  {
    if from < bound {
      EmptyScan(entries, from + 1, bound);
    }
  }

  lemma {:induction false} ScanAbove(entries: map<nat, Entry>, from: nat, bound: nat, i: nat)
    requires KeyedByIndex(entries) && i < |Scan(entries, from, bound)|
    ensures Scan(entries, from, bound)[i].index >= from
    decreases bound - from
  {
    if from in entries {
      if i > 0 {
        ScanAbove(entries, from + 1, bound, i - 1);
      }
    } else {
      ScanAbove(entries, from + 1, bound, i);
    }
  }

  /** A verified scan is the table exactly when every entry is stored under its own index. */
  lemma ScannedTableIff(sha: Hasher, entries: map<nat, Entry>, bound: nat, all: seq<Entry>)
    requires IsScan(entries, bound, all) && VerifiedChain(sha, all)
    ensures Tabulates(entries, all) <==> KeyedByIndex(entries)
  {
    hide VerifiedChain, Scan, TableFrom, KeyedByIndex, Tabulates;
    forall i: nat | i < |all|
      ensures all[i].index == i
    {
      ChainIndex(sha, all, i);
    }
    if KeyedByIndex(entries) {
      ScanTells(entries, 0, bound);
      WholeTable(entries, bound, all);
    }
    if Tabulates(entries, all) {
      TableKeyed(entries, all);
    }
  }

  lemma WholeTable(entries: map<nat, Entry>, bound: nat, all: seq<Entry>)
    requires TableFrom(entries, 0, bound, all) && forall k :: k in entries ==> k < bound
    ensures Tabulates(entries, all)
  {
    assert forall k :: 0 <= k < |all| ==> entries[k] == all[k - 0];
  }

  lemma TableKeyed(entries: map<nat, Entry>, all: seq<Entry>)
    requires Tabulates(entries, all) && forall i: nat :: i < |all| ==> all[i].index == i
    ensures KeyedByIndex(entries)
  {
  }

  /** `New`, on any files: it opens exactly those whose entries scan as a verified chain with accessible
      leaves. The opened log is valid exactly when the entries are stored under their own indices and
      size, head and replay table agree with them, none of which is looked at. */
  method Open(sha: Hasher, store: Store, maxInternal: nat, maxLeaf: nat, requireEnrollment: bool, broken: set<nat>,
              ghost bound: nat, ghost all: seq<Entry>)
    returns (r: Option<Log>)
    requires store.leafDb.durable && IsScan(store.entries, bound, all)
    modifies store.leafDb
    ensures r.Some? <==> VerifiedChain(sha, all) && Accessible(|all|, broken)
    ensures r.Some? ==> Opened(r.value, sha, store, maxLeaf, all) && r.value.requireEnrollment == requireEnrollment
    ensures r.Some? ==> fresh(r.value) && fresh(r.value.tree) && fresh(r.value.tree.rng)
    ensures r.Some? ==> fresh(r.value.tree.Caches() - {store.leafDb})
    ensures r.Some? ==> (r.value.Valid() <==> KeyedByIndex(store.entries) && store.size == |all|
                                              && store.head == HeadOf(all) && ReplayAgrees(sha, store.replay, all))
    ensures r.Some? ==> (r.value.tree.Right() <==> maxLeaf == 0 || MirrorAgrees(old(store.leafDb.leaves), all))
    ensures r.Some? ==> AllMirrored(store.leafDb.leaves, |all|)
    ensures Backfilled(store.leafDb.leaves, old(store.leafDb.leaves), all)
  {
    hide VerifiedChain, IsScan, Tree.Right, Tree.Built, BuiltFrom, ReplayAgrees, Tabulates, HeadOf, Backfilled,
      MirrorAgrees, AllMirrored, Accessible, KeyedByIndex, Recent;
    var tree := Replay(sha, store, maxInternal, maxLeaf, broken, bound, all);
    if tree.None? {
      return None;
    }
    ScannedTableIff(sha, store.entries, bound, all);
    var reopened := new Log(sha, store, tree.value, requireEnrollment, all);
    return Some(reopened);
  }

  /** A log as a start leaves it: in memory everything is right, and the last leaves are resident. */
  ghost predicate Opened(l: Log, sha: Hasher, store: Store, maxLeaf: nat, all: seq<Entry>)
    reads l, l.tree, l.tree.rng, l.tree.leafLru, l.tree.leafLru.order, l.tree.internal, l.tree.internal.order
  {
    && l.Running() && l.sha == sha && l.store == store && l.log == all && l.tree.Resident()
    && l.tree.leafLru.max == maxLeaf && l.tree.leafLru.Keys() == Recent(|all|, maxLeaf)
  }
}
