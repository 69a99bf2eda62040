/** Files a start does not notice: a mirrored leaf that differs from its entry, and an entry table that is
    shorter than size and head say. */
module AlteredFiles {
  import opened Encoding
  import opened Hashing
  import opened Options
  import opened Inclusion
  import opened CompactRange
  import opened ProofNodes
  import opened LruCache
  import opened LogEntry
  import opened MerkleTree
  import opened Storage
  import opened CoreLog
  import opened LogReplay
  import Attest
  import Rfc6962

  // ---- A proof that needs a leaf ----

  function Sibling(j: nat): nat { if j % 2 == 0 then j + 1 else j - 1 }

  /** The first node of a leaf's inclusion proof is its sibling, as it is. */
  lemma SiblingFirst(sha: Hasher, i: nat, j: nat, n: nat, hashes: seq<Bytes>)
    requires j < n && i == Sibling(j) < n && |hashes| == |InclusionNodes(i, n).ids|
    ensures |hashes| > 0 && InclusionNodes(i, n).ids[0] == NodeId(0, j)
    ensures Rehash(sha, InclusionNodes(i, n), hashes) != [] && Rehash(sha, InclusionNodes(i, n), hashes)[0] == hashes[0]
  {
    hide FoldUp;
    assert Rfc6962.Width(n, 0) == n && Rfc6962.Complete(n, 0) == n;
    var up := PathNodes(n, 1, i / 2);
    assert InclusionNodes(i, n) == up.Prepend(NodeId(0, j));
  }

  /** So an audit path starts with the sibling leaf. */
  lemma PathStartsWithSibling(sha: Hasher, leaves: seq<Digest>, i: nat, j: nat)
    requires j < |leaves| && i == Sibling(j) < |leaves|
    ensures var path := AuditPath(sha, leaves, i, 0, |leaves|);
            path != [] && path[0] == leaves[j]
  {
    hide AuditPath, Rehash, HashesOf, PathNodes;
    var n, nodes := |leaves|, InclusionNodes(i, |leaves|);
    var hashes := HashesOf(sha, leaves, n, nodes.ids);
    InclusionNodesGiveAuditPath(sha, leaves, i, n);
    SiblingFirst(sha, i, j, n, hashes);
    LeafNode(sha, leaves, n, j);
    assert hashes[0] == HashOf(sha, leaves, n, nodes.ids[0]);
  }

  // ---- An altered leaf in the mirror ----

  /** The mirror holds `altered` for leaf `j`, which is not its leaf hash; everything in memory is right,
      and the last leaves are resident. */
  ghost predicate Pushing(l: Log, j: nat, altered: Bytes)
    reads l, l.store, l.store.leafDb, l.tree, l.tree.rng
    reads l.tree.leafLru, l.tree.leafLru.order, l.tree.internal, l.tree.internal.order
  {
    && l.Running() && l.tree.Resident() && l.tree.leafLru.Keys() == Recent(|l.log|, l.tree.leafLru.max)
    && AlteredAt(l.store.leafDb.leaves, l.log, j, altered) && AllMirrored(l.store.leafDb.leaves, |l.log|)
  }

  ghost predicate AlteredAt(leaves: map<nat, Bytes>, log: seq<Entry>, j: nat, altered: Bytes)
  {
    j < |log| && Stored(leaves, j) && leaves[j] == altered != log[j].leafHash
  }

  lemma StillAltered(leaves: map<nat, Bytes>, log: seq<Entry>, j: nat, altered: Bytes, e: Entry)
    requires AlteredAt(leaves, log, j, altered) && AllMirrored(leaves, |log|) && e.leafHash != []
    ensures AlteredAt(leaves[|log| := e.leafHash], log + [e], j, altered)
    ensures AllMirrored(leaves[|log| := e.leafHash], |log| + 1)
  {
    var more := leaves[|log| := e.leafHash];
    assert forall k: nat :: k < |log| + 1 ==> (Stored(more, k) <==> k == |log| || Stored(leaves, k));
  }

  lemma RecentNext(n: nat, cap: nat)
    ensures Recent(n + 1, cap) == Touched<nat>(Recent(n, cap), n, cap)
  {
  }

  /** Not the audit path of leaf `i`. */
  ghost predicate WrongFor(sha: Hasher, leaves: seq<Digest>, i: nat, proof: seq<Bytes>)
  {
    i < |leaves| && proof != AuditPath(sha, leaves, i, 0, |leaves|)
  }

  /** One append, whatever comes of it. */
  method PushOne(l: Log, s: Submission, ghost j: nat, ghost altered: Bytes)
    requires Pushing(l, j, altered) && |l.log| < TWO_TO_63
    modifies l, l.store, l.tree, l.tree.rng, l.tree.Caches()
    ensures Pushing(l, j, altered) && fresh(l.tree.Caches() - old(l.tree.Caches()))
    ensures old(l.log) <= l.log && |l.log| <= old(|l.log|) + 1
  {
    hide Log.Running, Log.Valid, Tree.Resident, Tree.Right, AppendStep, AlteredAt, AllMirrored, Recent;
    ghost var v := l.View();
    var r := l.Append(s);
    StillPushing(l.sha, l.requireEnrollment, v, l.View(), s, r, j, altered);
  }

  /** What an append leaves of the mirror and of memory. */
  lemma StillPushing(sha: Hasher, requireEnrollment: bool, v: LogView, w: LogView, s: Submission, r: Outcome, j: nat,
                     altered: Bytes)
    requires AppendStep(sha, requireEnrollment, v, w, s, r) && v.keys == Recent(|v.log|, v.max)
    requires AlteredAt(v.leaves, v.log, j, altered) && AllMirrored(v.leaves, |v.log|)
    ensures w.keys == Recent(|w.log|, w.max) && AlteredAt(w.leaves, w.log, j, altered) && AllMirrored(w.leaves, |w.log|)
    ensures v.log <= w.log && |w.log| <= |v.log| + 1
  {
    hide Admitted, Attest.EnvelopeHash, NewEntry, Touched, Recent, AlteredAt, AllMirrored, LogView.Fits, LogView.Prev;
    if r.Appended? {
      RecentNext(|v.log|, v.max);
      NewEntryShape(sha, |v.log|, v.(replay := w.replay).Prev(), s.env.value, s.honeypot, s.now);
      StillAltered(v.leaves, v.log, j, altered, r.entry);
    }
  }

  /** The sibling's proof once leaf `j` is no longer resident: it starts with the altered leaf. */
  method ServeSibling(l: Log, j: nat, ghost altered: Bytes) returns (proof: seq<Bytes>)
    requires Pushing(l, j, altered) && 0 < l.tree.leafLru.max && j + l.tree.leafLru.max < |l.log|
    modifies l.tree.Caches()
    ensures l.log == old(l.log) && l.tree.leaves == old(l.tree.leaves) && BuiltFrom(l.tree.leaves, l.log)
    ensures WrongFor(l.sha, l.tree.leaves, Sibling(j), proof)
  {
    hide AuditPath, Rehash, InclusionNodes, NodesGood, LeavesGood, Bijection, Range.Holds, Recent;
    var n, i := |l.log|, Sibling(j);
    CachedIsRecent(l.tree, |l.log|, j);
    PathStartsWithSibling(l.sha, l.tree.leaves, i, j);
    var size := l.ReadSize();
    NothingMissing(l);
    var r;
    ghost var hashes;
    r, hashes := l.tree.InclusionProof(i, size, {});
    proof := r.value;
    SiblingFirst(l.sha, i, j, size, hashes);
  }

  lemma NothingMissing(l: Log)
    requires l.Running() && AllMirrored(l.store.leafDb.leaves, |l.log|)
    ensures l.tree.Missing() == {}
  {
  }

  /** The documentation promises that a start fails on altered files, so that they cannot serve proofs, and
      that the leaf cap is no matter of correctness. With a cap, and any mirrored leaf that is not its
      entry's, the start succeeds; and once appends, whatever comes of each, have made the log long enough
      to push that leaf out of memory, the proof for its sibling is not the audit path of the log. */
  method ServeAltered(sha: Hasher, store: Store, maxInternal: nat, maxLeaf: nat, requireEnrollment: bool, j: nat,
                      submissions: seq<Submission>, ghost bound: nat, ghost all: seq<Entry>)
    returns (proof: Option<seq<Bytes>>, ghost log: seq<Entry>, ghost leaves: seq<Digest>)
    requires store.leafDb.durable && IsScan(store.entries, bound, all) && VerifiedChain(sha, all)
    requires 0 < maxLeaf && |all| + |submissions| <= TWO_TO_63
    requires j < |all| && Stored(store.leafDb.leaves, j) && store.leafDb.leaves[j] != all[j].leafHash
    modifies store, store.leafDb
    ensures all <= log && BuiltFrom(leaves, log) && (proof.Some? <==> j + maxLeaf < |log|)
    ensures proof.Some? ==> WrongFor(sha, leaves, Sibling(j), proof.value)
  {
    hide VerifiedChain, IsScan, Backfilled, MirrorAgrees, WrongFor, KeyedByIndex, ReplayAgrees, HeadOf, Accessible,
      Pushing, AlteredAt, AllMirrored, Opened, Log.Running;
    ghost var altered := store.leafDb.leaves[j];
    ghost var was := store.leafDb.leaves;
    NothingBroken(|all|);
    var started := Open(sha, store, maxInternal, maxLeaf, requireEnrollment, {}, bound, all);
    var l := started.value;
    StartsPushing(l, sha, store, maxLeaf, all, was, j, altered);
    for k := 0 to |submissions|
      invariant Pushing(l, j, altered) && all <= l.log && |l.log| <= |all| + k
      invariant fresh(l.tree.Caches() - {store.leafDb})
    {
      PushOne(l, submissions[k], j, altered);
    }
    proof := None;
    var size := SizeOf(l, j, altered);
    log, leaves := l.log, l.tree.leaves;
    if j + maxLeaf < size {
      var served := ServeSibling(l, j, altered);
      proof := Some(served);
    }
  }

  method SizeOf(l: Log, ghost j: nat, ghost altered: Bytes) returns (size: nat)
    requires Pushing(l, j, altered)
    ensures size == |l.log| && BuiltFrom(l.tree.leaves, l.log)
  {
    hide Tree.Resident, Tree.Built, BuiltFrom, AlteredAt, AllMirrored, Recent;
    size := l.ReadSize();
  }

  lemma StartsPushing(l: Log, sha: Hasher, store: Store, maxLeaf: nat, all: seq<Entry>, was: map<nat, Bytes>, j: nat,
                      altered: Bytes)
    requires Opened(l, sha, store, maxLeaf, all) && AllMirrored(store.leafDb.leaves, |all|)
    requires Backfilled(store.leafDb.leaves, was, all)
    requires j < |all| && Stored(was, j) && was[j] == altered != all[j].leafHash
    ensures Pushing(l, j, altered) && l.log == all && l.tree.leafLru.max == maxLeaf && l.store == store && l.sha == sha
  {
    hide Log.Running, Tree.Resident, Recent;
  }

  lemma NothingBroken(n: nat)
    ensures Accessible(n, {})
  {
  }

  // ---- A table that ends too early ----

  /** With a stored size other than the tree's, every append fails, and nothing but replay rows changes. */
  method AppendsFail(l: Log, submissions: seq<Submission>) returns (outcomes: seq<Outcome>)
    requires l.Running() && l.store.size != |l.log| < TWO_TO_63
    modifies l, l.store, l.tree, l.tree.rng, l.tree.Caches()
    ensures l.Running() && l.log == old(l.log) && l.store.entries == old(l.store.entries)
    ensures |outcomes| == |submissions| && forall o :: o in outcomes ==> !o.Appended?
  {
    hide Log.Running, Log.Valid, Tree.Resident, Tree.Right, AppendStep;
    outcomes := [];
    for k := 0 to |submissions|
      invariant l.Running() && l.log == old(l.log) && fresh(l.tree.Caches() - old(l.tree.Caches()))
      invariant l.store.entries == old(l.store.entries) && l.store.size == old(l.store.size)
      invariant |outcomes| == k && forall o :: o in outcomes ==> !o.Appended?
    {
      ghost var v := l.View();
      var r := l.Append(submissions[k]);
      MisfitFails(l.sha, l.requireEnrollment, v, l.View(), submissions[k], r);
      outcomes := outcomes + [r];
    }
  }

  lemma MisfitFails(sha: Hasher, requireEnrollment: bool, v: LogView, w: LogView, s: Submission, r: Outcome)
    requires AppendStep(sha, requireEnrollment, v, w, s, r) && v.size != |v.log|
    ensures !r.Appended? && w == v.(replay := w.replay)
  {
    hide Admitted, Attest.EnvelopeHash, NewEntry;
  }

  ghost function HeadBytes(log: seq<Entry>): Bytes { if log == [] then ZeroHash() else log[|log| - 1].entryHash }

  /** The last row of a log is missing from the entry table, while size, head and mirror are those of the
      whole log. The missing entry's hash is not that of the one before, which would be a collision. */
  ghost predicate Truncated(sha: Hasher, store: Store, log: seq<Entry>)
    reads store, store.leafDb
  {
    && store.leafDb.durable && VerifiedChain(sha, log) && 0 < |log| < TWO_TO_63
    && Tabulates(store.entries, log[..|log| - 1]) && store.size == |log| && store.head == HeadOf(log)
    && MirrorAgrees(store.leafDb.leaves, log) && HeadBytes(log) != HeadBytes(log[..|log| - 1])
  }

  /** The start succeeds here too, and leaf reads are right. But a checkpoint then takes its root from the
      shorter log and its head from the longer one, and every append fails. */
  method ServeTruncated(sha: Hasher, store: Store, maxInternal: nat, maxLeaf: nat, requireEnrollment: bool,
                        submissions: seq<Submission>, ghost log: seq<Entry>)
    returns (size: nat, root: Digest, head: Bytes, outcomes: seq<Outcome>, ghost leaves: seq<Digest>)
    requires Truncated(sha, store, log)
    modifies store, store.leafDb
    ensures var short := log[..|log| - 1];
            && size == |short| && BuiltFrom(leaves, short) && root == Rfc6962.RootOf(sha, leaves)
            && head == HeadBytes(log) != HeadBytes(short)
    ensures |outcomes| == |submissions| && forall o :: o in outcomes ==> !o.Appended?
  {
    hide VerifiedChain, Tabulates, MirrorAgrees, BuiltFrom, Log.Running, ReplayAgrees, KeyedByIndex, IsScan, Opened;
    ghost var short := log[..|log| - 1];
    ShortScan(sha, store.entries, log, short);
    NothingBroken(|short|);
    var started := Open(sha, store, maxInternal, maxLeaf, requireEnrollment, {}, |short|, short);
    var l := started.value;
    assert l.Running() && l.log == short && l.store == store && l.sha == sha by {
      OpenedRuns(l, sha, store, maxLeaf, short);
    }
    size, root, head := l.Snapshot();
    leaves := l.tree.leaves;
    outcomes := AppendsFail(l, submissions);
  }

  lemma OpenedRuns(l: Log, sha: Hasher, store: Store, maxLeaf: nat, all: seq<Entry>)
    requires Opened(l, sha, store, maxLeaf, all)
    ensures l.Running() && l.log == all && l.store == store && l.sha == sha
  {
  }

  lemma ShortScan(sha: Hasher, entries: map<nat, Entry>, log: seq<Entry>, short: seq<Entry>)
    requires VerifiedChain(sha, log) && 0 < |log| < TWO_TO_63 && short == log[..|log| - 1] && Tabulates(entries, short)
    ensures IsScan(entries, |short|, short) && VerifiedChain(sha, short)
  {
    hide VerifiedChain, Scan;
    ChainPrefix(sha, log, |log| - 1);
    ScanTable(entries, short, 0);
    assert short[0..] == short;
  }
}
