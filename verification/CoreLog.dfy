/** `pkg/core`: the operator's log. Tree, entry store, head, leaf mirror and replay table are kept in
    step by every call, failing calls included. */
module CoreLog {
  import opened Encoding
  import opened Hashing
  import opened Rfc6962
  import opened Crypto
  import opened Options
  import opened Attest
  import Fields
  import opened LogEntry
  import opened Producers
  import opened MerkleTree
  import opened Storage
  import opened LruCache

  /** The tree is built over exactly the log's leaf hashes. */
  ghost predicate BuiltFrom(leaves: seq<Digest>, log: seq<Entry>)
  {
    |leaves| == |log| && forall i :: 0 <= i < |log| ==> leaves[i] == log[i].leafHash
  }

  /** Each stored envelope's hash leads to its own index. */
  ghost predicate ReplayAgrees(sha: Hasher, replay: map<Bytes, nat>, log: seq<Entry>)
  {
    forall i :: 0 <= i < |log| ==> EnvelopeDigest(sha, log[i]) in replay && replay[EnvelopeDigest(sha, log[i])] == i
  }

  /** So no envelope is stored twice. */
  lemma NoEnvelopeTwice(sha: Hasher, replay: map<Bytes, nat>, log: seq<Entry>, i: nat, j: nat)
    requires ReplayAgrees(sha, replay, log) && i < j < |log|
    requires log[i].envelope.Some? && log[j].envelope.Some?
    ensures EnvelopeHash(sha, log[i].envelope.value) != EnvelopeHash(sha, log[j].envelope.value)
    ensures !SameSigned(log[i].envelope.value, log[j].envelope.value)
  {
    assert replay[EnvelopeDigest(sha, log[i])] == i && replay[EnvelopeDigest(sha, log[j])] == j;
    SignedFixesHash(sha, log[i].envelope.value, log[j].envelope.value);
  }

  /** A replay row leads to an entry with that envelope exactly when the log has one. */
  lemma RowNamesEntryIff(sha: Hasher, replay: map<Bytes, nat>, log: seq<Entry>, hash: Bytes)
    requires ReplayAgrees(sha, replay, log) && hash in replay
    ensures (replay[hash] < |log| && EnvelopeDigest(sha, log[replay[hash]]) == hash) <==>
            exists i :: 0 <= i < |log| && EnvelopeDigest(sha, log[i]) == hash
  {
    hide EnvelopeDigest;
  }

  lemma SignedFixesHash(sha: Hasher, e: Envelope, f: Envelope)
    ensures SameSigned(e, f) ==> EnvelopeHash(sha, e) == EnvelopeHash(sha, f)
  {
    assert SameSigned(e, f) ==> EnvelopeFields(e) == EnvelopeFields(f);
  }

  lemma ReplayGrows(sha: Hasher, replay: map<Bytes, nat>, log: seq<Entry>, hash: Bytes, idx: nat)
    requires ReplayAgrees(sha, replay, log) && hash !in replay
    ensures ReplayAgrees(sha, replay[hash := idx], log)
  {
    hide EnvelopeDigest;
  }

  lemma ReplayAppend(sha: Hasher, replay: map<Bytes, nat>, log: seq<Entry>, e: Entry)
    requires ReplayAgrees(sha, replay, log) && EnvelopeDigest(sha, e) in replay
    requires replay[EnvelopeDigest(sha, e)] == |log|
    ensures ReplayAgrees(sha, replay, log + [e])
  {
    hide EnvelopeDigest;
  }

  lemma BuiltFromAppend(leaves: seq<Digest>, log: seq<Entry>, e: Entry, leaf: Digest)
    requires BuiltFrom(leaves, log) && leaf == e.leafHash
    ensures BuiltFrom(leaves + [leaf], log + [e])
  {
  }

  /** A freshly made entry checks out and follows the head it was made for. */
  lemma NewEntryFits(sha: Hasher, log: seq<Entry>, env: Envelope, honeypot: bool, now: I64)
    requires VerifiedChain(sha, log) && |log| < TWO_TO_63 && Verifies(sha, env)
    ensures var e := NewEntry(sha, |log|, HeadOf(log), env, honeypot, now);
            && SelfVerifies(sha, e) && Follows(Before(log, |log|), e)
            && EnvelopeDigest(sha, e) == EnvelopeHash(sha, env) && e.envelope == Some(env) && |e.leafHash| == 32
  {
    hide VerifiedChain, Fields.Encode, Verifies, EnvelopeHash;
    if log != [] {
      Link(sha, log, |log| - 1);
      ChainIndex(sha, log, |log| - 1);
    }
  }

  ghost predicate Admitted(sha: Hasher, producers: map<Bytes, Producer>, requireEnrollment: bool, env: Envelope,
                           now: I64, chainKey: U64 -> Option<Bytes>, quantumChainKey: U64 -> Option<Bytes>)
  {
    && Verifies(sha, env) && env.producerId in producers
    && var p := producers[env.producerId];
       && !p.revoked && p.publicKey == env.publicKey
       && (p.quantumPublicKey != [] ==> env.quantumPublicKey == p.quantumPublicKey)
       && (requireEnrollment ==>
             && p.signature.Length() > 0 && (p.expiresAt == 0 || now < p.expiresAt)
             && VerifyEnrollment(p, chainKey, quantumChainKey))
  }

  // ---- What is admitted ----

  /** The producer registered under the envelope's ID sent it: the record is not revoked and the registered
      keys signed. A classical record leaves it to the envelope to bring a quantum half. */
  ghost predicate SentBy(sha: Hasher, p: Producer, env: Envelope)
  {
    && !p.revoked && |p.publicKey| == PUBLIC_KEY_SIZE && env.publicKey == p.publicKey
    && env.signature == Signed(Ed25519, p.publicKey, Canonical(env))
    && (p.quantumPublicKey != [] ==> env.quantumPublicKey == p.quantumPublicKey)
    && (if env.quantumPublicKey == [] then env.quantumSignature.Length() == 0
        else |env.quantumPublicKey| == QUANTUM_PUBLIC_KEY_SIZE
             && env.quantumSignature == Signed(Dilithium3, env.quantumPublicKey, Canonical(env)))
    && (env.evidence == [] || env.evidenceHash == sha(env.evidence))
  }

  /** The operator's keys of the record's epoch signed its terms, which have not expired. */
  predicate EnrolledAt(p: Producer, now: I64, chainKey: U64 -> Option<Bytes>, quantumChainKey: U64 -> Option<Bytes>)
  {
    && (p.expiresAt == 0 || now < p.expiresAt)
    && chainKey(p.operatorEpoch).Some?
    && p.signature == Signed(Ed25519, chainKey(p.operatorEpoch).value, CanonicalEnrollment(p))
    && (if p.quantumOperatorKey == [] then p.quantumSignature.Length() == 0
        else |p.quantumOperatorKey| == QUANTUM_PUBLIC_KEY_SIZE
             && quantumChainKey(p.operatorEpoch) == Some(p.quantumOperatorKey)
             && p.quantumSignature == Signed(Dilithium3, p.quantumOperatorKey, CanonicalEnrollment(p)))
  }

  /** Admitted is exactly what the registered producer sent, under a valid enrollment where one is
      required. */
  lemma AdmittedIff(sha: Hasher, producers: map<Bytes, Producer>, requireEnrollment: bool, env: Envelope, now: I64,
                    chainKey: U64 -> Option<Bytes>, quantumChainKey: U64 -> Option<Bytes>)
    ensures Admitted(sha, producers, requireEnrollment, env, now, chainKey, quantumChainKey) <==>
              && env.producerId in producers && SentBy(sha, producers[env.producerId], env)
              && (requireEnrollment ==> EnrolledAt(producers[env.producerId], now, chainKey, quantumChainKey))
  {
    hide Canonical, CanonicalEnrollment;
  }

  datatype AppendCalls = AppendCalls(lookup: bool, record: bool, head: bool, append: bool)

  datatype Outcome = Appended(entry: Entry) | Rejected | Duplicate(original: nat) | Failed

  /** The arguments of one append. */
  datatype Submission = Submission(
    env: Option<Envelope>, honeypot: bool, now: I64,
    chainKey: U64 -> Option<Bytes>, quantumChainKey: U64 -> Option<Bytes>, calls: AppendCalls)

  /** The log with its files and the keys of the leaves it has in memory. */
  datatype LogView = LogView(
    log: seq<Entry>, entries: map<nat, Entry>, leaves: map<nat, Bytes>, size: nat, head: Option<Bytes>,
    replay: map<Bytes, nat>, producers: map<Bytes, Producer>, keys: seq<nat>, max: nat)
  {
    /** The store takes an entry at the tree's size. */
    ghost predicate Fits()
    {
      size == |log| && |log| !in entries && (log == [] ==> head.None? || head == Some(ZeroHash()))
    }

    /** What the next entry is chained to. */
    ghost function Prev(): Option<Bytes>
    {
      if log == [] then None else if head.None? then Some(ZeroHash()) else head
    }

    /** Everything that changes when `e` is appended. */
    ghost function With(e: Entry): LogView
    {
      this.(log := log + [e], entries := entries[|log| := e], leaves := leaves[|log| := e.leafHash],
            size := (|log| + 1) % TWO_TO_64, head := Some(e.entryHash), keys := Touched<nat>(keys, |log|, max))
    }
  }

  /** Entries, size and head describe the log, and the replay table points each of its envelopes at its
      index. */
  ghost predicate InStep(sha: Hasher, v: LogView)
  {
    Consistent(sha, v.entries, v.size, v.head, v.log) && ReplayAgrees(sha, v.replay, v.log)
  }

  /** What one append does to `v`. On success the log grows by the new entry everywhere at once. Otherwise
      entries, size, head, mirror and memory stay as they were; the replay row alone may already be
      written. */
  ghost predicate AppendStep(sha: Hasher, requireEnrollment: bool, v: LogView, w: LogView, s: Submission, r: Outcome)
  {
    if s.env.None? || !s.calls.lookup
       || !Admitted(sha, v.producers, requireEnrollment, s.env.value, s.now, s.chainKey, s.quantumChainKey)
    then r == Rejected && w == v
    else
      var hash := EnvelopeHash(sha, s.env.value);
      if !s.calls.record then r == Failed && w == v
      else if hash in v.replay then r == Duplicate(v.replay[hash]) && w == v
      else
        var recorded := v.(replay := v.replay[hash := |v.log|]);
        if s.calls.head && s.calls.append && recorded.Fits() then
          && |v.log| < TWO_TO_64
          && r == Appended(NewEntry(sha, |v.log|, recorded.Prev(), s.env.value, s.honeypot, s.now))
          && w == recorded.With(r.entry)
        else r == Failed && w == recorded
  }

  lemma RejectedStep(sha: Hasher, requireEnrollment: bool, v: LogView, s: Submission)
    ensures s.env.None? || !s.calls.lookup
            || !Admitted(sha, v.producers, requireEnrollment, s.env.value, s.now, s.chainKey, s.quantumChainKey) ==>
              AppendStep(sha, requireEnrollment, v, v, s, Rejected)
  {
    hide Admitted;
  }

  class Log {
    const sha: Hasher
    const store: Store
    const tree: Tree
    const requireEnrollment: bool
    ghost var log: seq<Entry>

    constructor (sha: Hasher, store: Store, tree: Tree, requireEnrollment: bool, ghost log: seq<Entry>)
      ensures this.sha == sha && this.store == store && this.tree == tree
      ensures this.requireEnrollment == requireEnrollment && this.log == log
    {
      this.sha, this.store, this.tree, this.requireEnrollment := sha, store, tree, requireEnrollment;
      this.log := log;
    }

    /** The tree is built over the entries in `log` and shares nothing with the store but the mirror. This
        is all a start establishes, and all that is needed to go on. */
    ghost predicate Running()
      reads this, tree, tree.rng, tree.leafLru, tree.leafLru.order, tree.internal, tree.internal.order
    {
      && tree.store == store.leafDb && tree.sha == sha && store.leafDb.durable
      && store !in tree.Caches() && this !in tree.Caches() && tree !in tree.Caches()
      && tree.Built() && BuiltFrom(tree.leaves, log)
    }

    /** Moreover store size = tree size = log length, head = last entry hash, the entry table holds the
        log, which is a verified chain, and the replay table points each stored envelope at its index. */
    ghost predicate Valid()
      reads this, store, store.leafDb
      reads tree, tree.rng, tree.leafLru, tree.leafLru.order, tree.internal, tree.internal.order
    {
      Running() && InStep(sha, View())
    }

    ghost function View(): LogView
      reads this, store, store.leafDb, tree.leafLru
    {
      LogView(log, store.entries, store.leafDb.leaves, store.size, store.head, store.replay, store.producers,
              tree.leafLru.Keys(), tree.leafLru.max)
    }

    /** The checks of `AppendCtx` before it takes the lock: a good envelope, from a registered producer,
        under the registered keys and, when required, a valid enrollment. */
    ghost predicate Admits(env: Envelope, now: I64, chainKey: U64 -> Option<Bytes>,
                           quantumChainKey: U64 -> Option<Bytes>)
      reads store
    {
      Admitted(sha, store.producers, requireEnrollment, env, now, chainKey, quantumChainKey)
    }

    method CheckProducer(env: Envelope, now: I64, chainKey: U64 -> Option<Bytes>, quantumChainKey: U64 -> Option<Bytes>)
      returns (ok: bool)
      ensures ok <==> Admits(env, now, chainKey, quantumChainKey)
    {
      hide Verifies, VerifyEnrollment;
      if !Verifies(sha, env) || env.producerId !in store.producers {
        return false;
      }
      var p := store.producers[env.producerId];
      if p.revoked || p.publicKey != env.publicKey {
        return false;
      }
      if |p.quantumPublicKey| > 0 {
        if |env.quantumPublicKey| == 0 || p.quantumPublicKey != env.quantumPublicKey {
          return false;
        }
      }
      if requireEnrollment {
        if p.signature.Length() == 0 || (p.expiresAt != 0 && now >= p.expiresAt) {
          return false;
        }
        return VerifyEnrollment(p, chainKey, quantumChainKey);
      }
      return true;
    }

    /** `AppendCtx`, on whatever files the log was started from. */
    method Append(s: Submission) returns (r: Outcome)
      requires Running() && |log| < TWO_TO_63
      modifies this, store, tree, tree.rng, tree.Caches()
      ensures Running() && fresh(tree.Caches() - old(tree.Caches()))
      ensures (old(tree.Resident()) ==> tree.Resident()) && (old(tree.Right()) ==> tree.Right())
      ensures AppendStep(sha, requireEnrollment, old(View()), View(), s, r)
      ensures old(Valid()) ==> Valid()
    {
      hide Running, InStep, AppendStep, Tree.Resident, Tree.Right;
      r := TryAppend(s);
      if old(Valid()) {
        StepKeepsInStep(sha, requireEnrollment, old(View()), View(), s, r);
      }
    }

    method TryAppend(s: Submission) returns (r: Outcome)
      requires Running() && |log| < TWO_TO_63
      modifies this, store, tree, tree.rng, tree.Caches()
      ensures Running() && fresh(tree.Caches() - old(tree.Caches()))
      ensures (old(tree.Resident()) ==> tree.Resident()) && (old(tree.Right()) ==> tree.Right())
      ensures AppendStep(sha, requireEnrollment, old(View()), View(), s, r)
    {
      hide Running, Admitted, AppendStep, Tree.Resident, Tree.Right;
      RejectedStep(sha, requireEnrollment, View(), s);
      if s.env.None? || !s.calls.lookup {
        return Rejected;
      }
      var admitted := CheckProducer(s.env.value, s.now, s.chainKey, s.quantumChainKey);
      if !admitted {
        return Rejected;
      }
      r := AppendAdmitted(s);
    }

    /** The part of `AppendCtx` under the lock. */
    method AppendAdmitted(s: Submission) returns (r: Outcome)
      requires Running() && |log| < TWO_TO_63 && s.env.Some? && s.calls.lookup
      requires Admits(s.env.value, s.now, s.chainKey, s.quantumChainKey)
      modifies this, store, tree, tree.rng, tree.Caches()
      ensures Running() && fresh(tree.Caches() - old(tree.Caches()))
      ensures (old(tree.Resident()) ==> tree.Resident()) && (old(tree.Right()) ==> tree.Right())
      ensures AppendStep(sha, requireEnrollment, old(View()), View(), s, r)
    {
      hide Running, Verifies, EnvelopeHash, Tree.Right, Tree.Resident, NewEntry, Admitted, LogView.With, LogView.Fits,
        LogView.Prev;
      var idx := ReadSize();
      var hash := EnvelopeHash(sha, s.env.value);
      var recording := Record(hash, idx, s.calls.record);
      if recording.RecordFailed? {
        return Failed;
      }
      if recording.Replayed? {
        return Duplicate(recording.original);
      }
      if !s.calls.head {
        return Failed;
      }
      r := AppendNext(s.env.value, s.honeypot, s.now, s.calls.append);
    }

    /** The entry for an envelope that has just been recorded. */
    method AppendNext(env: Envelope, honeypot: bool, now: I64, works: bool) returns (r: Outcome)
      requires Running() && |log| < TWO_TO_63
      modifies this, store, tree, tree.rng, tree.Caches()
      ensures Running() && fresh(tree.Caches() - old(tree.Caches()))
      ensures (old(tree.Resident()) ==> tree.Resident()) && (old(tree.Right()) ==> tree.Right())
      ensures if works && old(View()).Fits()
              then r == Appended(NewEntry(sha, old(|log|), old(View()).Prev(), env, honeypot, now))
                   && View() == old(View()).With(r.entry)
              else r == Failed && View() == old(View())
    {
      hide Running, EnvelopeHash, Tree.Right, Tree.Resident, NewEntry, LogView.Prev, LogView.Fits, LogView.With;
      var idx := ReadSize();
      var prev := ReadPrev(idx);
      var entry := NewEntry(sha, idx, prev, env, honeypot, now);
      NewEntryShape(sha, idx, prev, env, honeypot, now);
      var stored := Commit(entry, works);
      r := if stored then Appended(entry) else Failed;
    }

    /** What the next entry is chained to. */
    method ReadPrev(idx: nat) returns (prev: Option<Bytes>)
      requires idx == |log|
      ensures prev == View().Prev()
      ensures (if prev.None? then ZeroHash() else prev.value) == if log == [] then ZeroHash() else store.HeadHash()
    {
      prev := if idx == 0 then None else Some(store.HeadHash());
    }

    /** `Size` under the lock: the tree's size is the log's length. */
    method ReadSize() returns (idx: nat)
      requires Running()
      ensures idx == |log|
    {
      hide Tree.Built, BuiltFrom;
      idx := tree.Size();
      TreeSize(tree.leaves, log);
    }

    /** The replay table's transaction. */
    method Record(hash: Bytes, idx: nat, works: bool) returns (recording: Recording)
      requires Running() && idx == |log|
      modifies store`replay
      ensures Running() && tree.Resident() == old(tree.Resident()) && tree.Right() == old(tree.Right())
      ensures recording == if !works then RecordFailed
                           else if hash in old(store.replay) then Replayed(old(store.replay)[hash])
                           else Recorded
      ensures View() == if recording.Recorded? then old(View()).(replay := old(store.replay)[hash := idx])
                        else old(View())
    {
      hide Tree.Built, BuiltFrom;
      recording := store.CheckAndRecordEnvelope(hash, idx, works);
    }

    /** What `CheckpointCtx` reads under the lock: the size and root of the tree, and the stored head. They
        belong to one log when the log is valid. */
    method Snapshot() returns (size: nat, root: Digest, head: Bytes)
      requires Running()
      ensures size == |log| && root == RootOf(sha, tree.leaves) && BuiltFrom(tree.leaves, log)
      ensures head == store.HeadHash()
      ensures Valid() ==> head == if log == [] then ZeroHash() else log[|log| - 1].entryHash
    {
      hide VerifiedChain, Tabulates, ReplayAgrees, Tree.Built, RootOf, BuiltFrom;
      root := tree.Root();
      head := store.HeadHash();
      size := ReadSize();
    }

    /** Persisting the next entry and growing the tree by its leaf. */
    method Commit(entry: Entry, works: bool) returns (ok: bool)
      requires Running() && |log| < TWO_TO_63 && entry.index == |log| && |entry.entryHash| == 32 == |entry.leafHash|
      requires entry.prevHash == if log == [] then ZeroHash() else store.HeadHash()
      modifies this, store`entries, store`size, store`head, tree, tree.rng, tree.Caches()
      ensures Running() && fresh(tree.Caches() - old(tree.Caches()))
      ensures (old(tree.Resident()) ==> tree.Resident()) && (old(tree.Right()) ==> tree.Right())
      ensures ok <==> works && old(View()).Fits()
      ensures View() == if ok then old(View()).With(entry) else old(View())
    {
      hide Tree.Built, BuiltFrom, Tree.Resident, Tree.Right, Touched;
      ok := Persist(entry, works);
      if ok {
        GrowTree(entry);
      }
    }

    /** The store's transaction. */
    method Persist(entry: Entry, works: bool) returns (ok: bool)
      requires Running() && |log| < TWO_TO_63 && entry.index == |log| && |entry.entryHash| == 32 == |entry.leafHash|
      requires entry.prevHash == if log == [] then ZeroHash() else store.HeadHash()
      modifies store`entries, store`size, store`head, store.leafDb
      ensures Running() && (ok <==> works && old(View()).Fits()) && tree.Caches() == old(tree.Caches())
      ensures View() == if ok then old(View()).With(entry).(log := log, keys := old(tree.leafLru.Keys()))
                        else old(View())
      ensures old(tree.Right()) ==> tree.Right()
    {
      hide Tree.Built, BuiltFrom, ReadsRight, Touched;
      BuiltCaches(tree);
      TreeSize(tree.leaves, log);
      RightElsewhere(tree.leafLru.Contents(), store.leafDb.leaves, tree.leaves, tree.leafLru.max, entry.leafHash);
      ok := store.AppendEntry(entry, works);
    }

    /** The tree follows a store that has the next leaf already. */
    method GrowTree(entry: Entry)
      requires Running() && |log| < TWO_TO_63 && |entry.leafHash| == 32
      requires |log| in store.leafDb.leaves && store.leafDb.leaves[|log|] == entry.leafHash
      modifies this`log, tree, tree.rng, tree.Caches()
      ensures Running() && fresh(tree.Caches() - old(tree.Caches()))
      ensures (old(tree.Resident()) ==> tree.Resident()) && (old(tree.Right()) ==> tree.Right())
      ensures View() == old(View()).(log := old(log) + [entry],
                                     keys := Touched<nat>(old(tree.leafLru.Keys()), old(|log|), tree.leafLru.max))
    {
      hide BuiltFrom, Tree.Right, Tree.Resident, Tree.Built, Touched;
      TreeSize(tree.leaves, log);
      BuiltFromAppend(tree.leaves, log, entry, entry.leafHash);
      var _ := tree.AppendLeafHash(entry.leafHash);
      log := log + [entry];
    }
  }

  /** Leaf reads do not depend on a leaf the tree does not have yet. */
  lemma RightElsewhere(cached: map<nat, Bytes>, stored: map<nat, Bytes>, leaves: seq<Digest>, max: nat, leaf: Bytes)
    ensures ReadsRight(cached, stored, leaves, max) ==> ReadsRight(cached, stored[|leaves| := leaf], leaves, max)
  {
    assert forall i: nat :: i < |leaves| ==> (Stored(stored[|leaves| := leaf], i) <==> Stored(stored, i));
  }

  lemma BuiltCaches(tree: Tree)
    requires tree.Built()
    ensures tree.leafLru.Valid()
  {
  }

  lemma NewEntryShape(sha: Hasher, idx: U64, prev: Option<Bytes>, env: Envelope, honeypot: bool, now: I64)
    ensures var e := NewEntry(sha, idx, prev, env, honeypot, now);
            && e.index == idx && |e.entryHash| == 32 == |e.leafHash|
            && e.envelope == Some(env) && EnvelopeDigest(sha, e) == EnvelopeHash(sha, env)
            && e.prevHash == if prev.None? then ZeroHash() else prev.value
  {
    hide EntryBytes, EnvelopeHash;
  }

  lemma TreeSize(leaves: seq<Digest>, log: seq<Entry>)
    requires BuiltFrom(leaves, log)
    ensures |leaves| == |log|
  {
  }

  lemma ValidFits(l: Log)
    requires l.Valid()
    ensures l.View().Fits()
  {
    hide VerifiedChain, ReplayAgrees, Log.Running;
  }

  ghost predicate Submittable(sha: Hasher, requireEnrollment: bool, producers: map<Bytes, Producer>, s: Submission)
  {
    && s.env.Some? && s.calls == AppendCalls(true, true, true, true)
    && Admitted(sha, producers, requireEnrollment, s.env.value, s.now, s.chainKey, s.quantumChainKey)
  }

  /** An append keeps everything in step, and a log that is in step always takes the next entry. */
  lemma StepKeepsInStep(sha: Hasher, requireEnrollment: bool, v: LogView, w: LogView, s: Submission, r: Outcome)
    requires InStep(sha, v) && AppendStep(sha, requireEnrollment, v, w, s, r) && |v.log| < TWO_TO_63
    ensures InStep(sha, w) && v.Fits() && v.Prev() == HeadOf(v.log)
  {
    hide VerifiedChain, ReplayAgrees, EnvelopeHash, EnvelopeDigest, NewEntry, Touched, SelfVerifies, Follows, Verifies,
      VerifyEnrollment;
    if w != v {
      var env := s.env.value;
      ReplayGrows(sha, v.replay, v.log, EnvelopeHash(sha, env), |v.log|);
      if r.Appended? {
        NewEntryFits(sha, v.log, env, s.honeypot, s.now);
        ConsistentGrows(sha, v.entries, v.size, v.head, v.log, r.entry);
        ReplayAppend(sha, w.replay, v.log, r.entry);
      }
    }
  }

  /** A good submission of a new envelope is appended, if the store takes it. */
  lemma NewIsAppended(sha: Hasher, requireEnrollment: bool, v: LogView, w: LogView, s: Submission, r: Outcome)
    requires AppendStep(sha, requireEnrollment, v, w, s, r) && Submittable(sha, requireEnrollment, v.producers, s)
    requires EnvelopeHash(sha, s.env.value) !in v.replay && v.Fits()
    ensures r.Appended? && w.log == v.log + [r.entry] && w.producers == v.producers
    ensures EnvelopeDigest(sha, r.entry) == EnvelopeHash(sha, s.env.value)
    ensures w.replay == v.replay[EnvelopeHash(sha, s.env.value) := |v.log|]
  {
    hide EnvelopeHash, EnvelopeDigest, Admitted, NewEntry, Touched;
    NewEntryShape(sha, |v.log|, v.Prev(), s.env.value, s.honeypot, s.now);
  }

  /** It is recorded but not stored if the entry's transaction fails. */
  lemma FailureIsRecorded(sha: Hasher, requireEnrollment: bool, v: LogView, w: LogView, s: Submission, r: Outcome)
    requires Submittable(sha, requireEnrollment, v.producers, s) && EnvelopeHash(sha, s.env.value) !in v.replay
    requires AppendStep(sha, requireEnrollment, v, w, s.(calls := s.calls.(append := false)), r)
    ensures r == Failed && w == v.(replay := v.replay[EnvelopeHash(sha, s.env.value) := |v.log|])
  {
    hide EnvelopeHash, Admitted, NewEntry;
  }

  /** A known one is refused with the index of its row. */
  lemma KnownIsRefused(sha: Hasher, requireEnrollment: bool, v: LogView, w: LogView, s: Submission, r: Outcome)
    requires AppendStep(sha, requireEnrollment, v, w, s, r) && Submittable(sha, requireEnrollment, v.producers, s)
    requires EnvelopeHash(sha, s.env.value) in v.replay
    ensures r == Duplicate(v.replay[EnvelopeHash(sha, s.env.value)]) && w == v
  {
    hide EnvelopeHash, Admitted;
  }

  lemma RecordingFits(v: LogView, hash: Bytes)
    requires v.Fits()
    ensures v.(replay := v.replay[hash := |v.log|]).Fits()
  {
  }

  /** The promise that a failed append leaves the disk unchanged does not hold when the entry's own
      transaction fails: its replay row is already there, and the same envelope is then refused as a
      replay of an entry that does not exist. */
  method RetryAfterFailure(l: Log, s: Submission) returns (first: Outcome, second: Outcome)
    requires l.Valid() && |l.log| < TWO_TO_63 && Submittable(l.sha, l.requireEnrollment, l.store.producers, s)
    requires EnvelopeHash(l.sha, s.env.value) !in l.store.replay
    modifies l, l.store, l.tree, l.tree.rng, l.tree.Caches()
    ensures l.Valid() && fresh(l.tree.Caches() - old(l.tree.Caches()))
    ensures l.View() == old(l.View()).(replay := old(l.store.replay)[EnvelopeHash(l.sha, s.env.value) := |l.log|])
    ensures first == Failed && second == Duplicate(|l.log|) && l.View().Fits()
  {
    hide Log.Running, InStep, EnvelopeHash, Tree.Resident, Tree.Right, AppendStep, LogView.Fits,
      LogView.Prev, LogView.With, Admitted;
    ghost var v := l.View();
    ValidFits(l);
    RecordingFits(v, EnvelopeHash(l.sha, s.env.value));
    first := l.Append(s.(calls := s.calls.(append := false)));
    FailureIsRecorded(l.sha, l.requireEnrollment, v, l.View(), s, first);
    ghost var w := l.View();
    second := l.Append(s);
    KnownIsRefused(l.sha, l.requireEnrollment, w, l.View(), s, second);
  }

  /** Once another envelope has taken that index, the refusal names an entry with a different envelope. */
  method RefusalNamesOther(l: Log, s: Submission, other: Submission) returns (last: Outcome)
    requires l.Valid() && |l.log| < TWO_TO_63 - 1
    requires Submittable(l.sha, l.requireEnrollment, l.store.producers, s)
    requires Submittable(l.sha, l.requireEnrollment, l.store.producers, other)
    requires EnvelopeHash(l.sha, s.env.value) !in l.store.replay
    requires EnvelopeHash(l.sha, other.env.value) !in l.store.replay
    requires EnvelopeHash(l.sha, s.env.value) != EnvelopeHash(l.sha, other.env.value)
    modifies l, l.store, l.tree, l.tree.rng, l.tree.Caches()
    ensures l.Valid() && |l.log| == old(|l.log|) + 1 && last == Duplicate(old(|l.log|))
    ensures EnvelopeDigest(l.sha, l.log[last.original]) == EnvelopeHash(l.sha, other.env.value)
    ensures EnvelopeDigest(l.sha, l.log[last.original]) != EnvelopeHash(l.sha, s.env.value)
  {
    hide Log.Running, InStep, EnvelopeHash, EnvelopeDigest, Admitted, Tree.Resident, Tree.Right, AppendStep,
      LogView.Fits, LogView.Prev;
    var _, _ := RetryAfterFailure(l, s);
    ghost var v := l.View();
    var taken := l.Append(other);
    NewIsAppended(l.sha, l.requireEnrollment, v, l.View(), other, taken);
    ghost var w := l.View();
    last := l.Append(s);
    KnownIsRefused(l.sha, l.requireEnrollment, w, l.View(), s, last);
  }
}
