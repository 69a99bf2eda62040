/** Whole runs of the operator's log: appends, registrations, proof requests, checkpoint snapshots, lost
    leaves and restarts in any order, with failing calls anywhere. */
module LogRuns {
  import opened Encoding
  import opened Hashing
  import opened Crypto
  import opened Rfc6962
  import opened Inclusion
  import opened Consistency
  import opened Options
  import opened LogEntry
  import opened Producers
  import opened MerkleTree
  import opened TreeRuns
  import opened Storage
  import opened CoreLog
  import opened LogReplay
  import Attest

  datatype Op =
    | AppendOp(s: Submission)
    | RegisterOp(producer: Producer, works: bool)
    | RevokeOp(id: Bytes, works: bool)
    | DropLeafOp(idx: nat)
    | InclusionOp(idx: nat, size: nat, broken: set<nat>)
    | ConsistencyOp(oldSize: nat, newSize: nat, broken: set<nat>)
    | SnapshotOp
    | RestartOp(maxInternal: nat, maxLeaf: nat, broken: set<nat>)
  {
    predicate IsProof() { InclusionOp? || ConsistencyOp? }

    function Request(): Request
      requires IsProof()
    {
      if InclusionOp? then InclusionOf(idx, size) else ConsistencyOf(oldSize, newSize)
    }
  }

  /** A log that is down, and a restart, give no reply. */
  datatype Reply =
    | NoReply
    | Submitted(outcome: Outcome)
    | Updated(ok: bool)
    | Answered(answer: Answer)
    | Snapped(size: nat, root: Digest, head: Bytes)
  {
    predicate IsAppended() { Submitted? && outcome.Appended? }
  }

  /** The leaf hashes a tree over the log has. */
  ghost function LeafDigests(log: seq<Entry>): (leaves: seq<Digest>)
    requires forall i :: 0 <= i < |log| ==> |log[i].leafHash| == 32
    ensures BuiltFrom(leaves, log)
  {
    seq(|log|, i requires 0 <= i < |log| => log[i].leafHash)
  }

  ghost predicate AllDigests(log: seq<Entry>) { forall i :: 0 <= i < |log| ==> |log[i].leafHash| == 32 }

  lemma SameDigests(leaves: seq<Digest>, log: seq<Entry>)
    requires BuiltFrom(leaves, log)
    ensures AllDigests(log) && leaves == LeafDigests(log)
  {
  }

  ghost function HeadBytes(log: seq<Entry>): Bytes { if log == [] then ZeroHash() else log[|log| - 1].entryHash }

  /** A reply over the log as it was: a snapshot is that log's; a proof is the one a tree without caches
      gives, if leaf reads are right, or names a leaf whose read failed or that was lost. */
  ghost predicate ReplyRight(sha: Hasher, past: seq<Entry>, op: Op, lost: set<nat>, reply: Reply, right: bool)
  {
    match reply
    case NoReply => true
    case Submitted(_) => op.AppendOp?
    case Updated(_) => op.RegisterOp? || op.RevokeOp?
    case Snapped(size, root, head) =>
      && op.SnapshotOp? && AllDigests(past) && size == |past| && root == RootOf(sha, LeafDigests(past))
      && head == HeadBytes(past)
    case Answered(answer) =>
      && op.IsProof() && AllDigests(past)
      && (right ==> AnswerRight(sha, LeafDigests(past), op.Request(), op.broken + lost, answer))
  }

  /** The replay table after an operation on a log of `n` entries. */
  ghost function TableStep(sha: Hasher, table: map<Bytes, nat>, op: Op, n: nat, reply: Reply): map<Bytes, nat>
  {
    if op.AppendOp? && op.s.env.Some? && reply.Submitted?
       && (reply.outcome.Appended? || (reply.outcome.Failed? && op.s.calls.record))
    then table[Attest.EnvelopeHash(sha, op.s.env.value) := n]
    else table
  }

  /** The registered producers after an operation. */
  ghost function ProducersStep(producers: map<Bytes, Producer>, op: Op, reply: Reply): map<Bytes, Producer>
  {
    if !reply.Updated? || !reply.ok then producers
    else if op.RegisterOp? then producers[op.producer.id := op.producer]
    else if op.RevokeOp? && op.id in producers then producers[op.id := producers[op.id].(revoked := true)]
    else producers
  }

  /** An envelope is refused exactly unless it is the registered producer's own, under a valid enrollment
      where one is required; an entry that is appended holds the envelope. A record is stored exactly if it
      has an ID and a key of the right size, and revoked exactly if it is there. */
  ghost predicate AdmitRight(sha: Hasher, strict: bool, producers: map<Bytes, Producer>, op: Op, reply: Reply)
  {
    match reply
    case Submitted(outcome) =>
      && op.AppendOp?
      && (outcome.Rejected? <==>
            !(&& op.s.calls.lookup && op.s.env.Some? && op.s.env.value.producerId in producers
              && var p := producers[op.s.env.value.producerId];
                 && SentBy(sha, p, op.s.env.value)
                 && (strict ==> EnrolledAt(p, op.s.now, op.s.chainKey, op.s.quantumChainKey))))
      && (outcome.Appended? ==> outcome.entry.envelope == op.s.env && outcome.entry.honeypot == op.s.honeypot
                                && outcome.entry.timeNanos == op.s.now)
    case Updated(ok) =>
      if op.RegisterOp? then ok <==> op.works && op.producer.id != [] && |op.producer.publicKey| == PUBLIC_KEY_SIZE
      else op.RevokeOp? && (ok <==> op.works && op.id in producers)
    case _ => true
  }

  /** Every leaf is mirrored or lost. */
  ghost predicate LostOnly(leaves: map<nat, Bytes>, n: nat, lost: set<nat>)
  {
    forall k: nat :: k < n && !Stored(leaves, k) ==> k in lost
  }

  ghost function Dropped(op: Op): set<nat> { if op.DropLeafOp? then {op.idx} else {} }

  /** The files of a log. */
  ghost predicate Held(sha: Hasher, store: Store, log: seq<Entry>)
    reads store
  {
    store.Holds(sha, log) && ReplayAgrees(sha, store.replay, log)
  }

  ghost predicate Serving(l: Log, sha: Hasher, store: Store, strict: bool, log: seq<Entry>)
    reads l, l.store, l.store.leafDb
    reads l.tree, l.tree.rng, l.tree.leafLru, l.tree.leafLru.order, l.tree.internal, l.tree.internal.order
  {
    l.Valid() && l.sha == sha && l.store == store && l.requireEnrollment == strict && l.log == log
  }

  // ---- Single operations ----

  /** An append inside a run. */
  method ServeAppend(l: Log, s: Submission, ghost lost: set<nat>) returns (reply: Reply)
    requires l.Valid() && |l.log| < TWO_TO_63 && LostOnly(l.store.leafDb.leaves, |l.log|, lost)
    modifies l, l.store, l.tree, l.tree.rng, l.tree.Caches()
    ensures l.Valid() && fresh(l.tree.Caches() - old(l.tree.Caches())) && reply.Submitted?
    ensures l.log == if reply.IsAppended() then old(l.log) + [reply.outcome.entry] else old(l.log)
    ensures l.store.replay == TableStep(l.sha, old(l.store.replay), AppendOp(s), old(|l.log|), reply)
    ensures l.store.producers == old(l.store.producers)
    ensures AdmitRight(l.sha, l.requireEnrollment, old(l.store.producers), AppendOp(s), reply)
    ensures LostOnly(l.store.leafDb.leaves, |l.log|, lost)
    ensures old(MirrorAgrees(l.store.leafDb.leaves, l.log)) ==> MirrorAgrees(l.store.leafDb.leaves, l.log)
    ensures old(l.tree.Right()) ==> l.tree.Right()
  {
    hide Log.Running, InStep, Tree.Resident, Tree.Right, AppendStep, TableStep, LostOnly, MirrorAgrees, AdmitRight;
    ghost var v := l.View();
    var outcome := l.Append(s);
    reply := Submitted(outcome);
    AppendMeans(l.sha, l.requireEnrollment, v, l.View(), s, outcome, lost);
    AppendAdmits(l.sha, l.requireEnrollment, v, l.View(), s, outcome);
  }

  lemma AppendAdmits(sha: Hasher, strict: bool, v: LogView, w: LogView, s: Submission, r: Outcome)
    requires AppendStep(sha, strict, v, w, s, r)
    ensures w.producers == v.producers && AdmitRight(sha, strict, v.producers, AppendOp(s), Submitted(r))
  {
    hide Admitted, SentBy, EnrolledAt, Attest.EnvelopeHash, LruCache.Touched, LogView.Fits, LogView.Prev, EntryBytes;
    if s.env.Some? {
      AdmittedIff(sha, v.producers, strict, s.env.value, s.now, s.chainKey, s.quantumChainKey);
    }
  }

  lemma AppendMeans(sha: Hasher, requireEnrollment: bool, v: LogView, w: LogView, s: Submission, r: Outcome,
                    lost: set<nat>)
    requires AppendStep(sha, requireEnrollment, v, w, s, r) && LostOnly(v.leaves, |v.log|, lost)
    ensures w.log == if r.Appended? then v.log + [r.entry] else v.log
    ensures w.replay == TableStep(sha, v.replay, AppendOp(s), |v.log|, Submitted(r))
    ensures LostOnly(w.leaves, |w.log|, lost)
    ensures MirrorAgrees(v.leaves, v.log) ==> MirrorAgrees(w.leaves, w.log)
  {
    hide Admitted, Attest.EnvelopeHash, NewEntry, LruCache.Touched, LogView.Fits, LogView.Prev, MirrorAgrees;
    if r.Appended? {
      NewEntryShape(sha, |v.log|, v.(replay := w.replay).Prev(), s.env.value, s.honeypot, s.now);
      assert forall k: nat :: k < |v.log| ==> (Stored(w.leaves, k) <==> Stored(v.leaves, k));
      if MirrorAgrees(v.leaves, v.log) {
        MirrorGrows(v.leaves, v.log, r.entry);
      }
    }
  }

  /** A proof request inside a run. */
  method ServeProof(l: Log, op: Op, ghost lost: set<nat>) returns (reply: Reply)
    requires l.Valid() && op.IsProof() && LostOnly(l.store.leafDb.leaves, |l.log|, lost)
    modifies l.tree, l.tree.rng, l.tree.Caches()
    ensures l.Valid() && l.log == old(l.log) && fresh(l.tree.Caches() - old(l.tree.Caches()))
    ensures l.store.leafDb.leaves == old(l.store.leafDb.leaves) && l.store.replay == old(l.store.replay)
    ensures l.store.producers == old(l.store.producers)
    ensures reply.Answered? && ReplyRight(l.sha, l.log, op, lost, reply, old(l.tree.Right()))
    ensures old(l.tree.Right()) ==> l.tree.Right()
  {
    hide Consistent, ReplayAgrees, Tree.Built, Tree.Right, BuiltFrom, AnswerRight;
    SameDigests(l.tree.leaves, l.log);
    ghost var missing := l.tree.Missing();
    var answer := AnswerOne(l.tree, op.Request(), op.broken);
    if old(l.tree.Right()) {
      LostCovers(l.sha, l.tree.leaves, op.Request(), op.broken, missing, lost, answer);
    }
    reply := Answered(answer);
  }

  lemma LostCovers(sha: Hasher, leaves: seq<Digest>, request: Request, broken: set<nat>, missing: set<nat>,
                   lost: set<nat>, answer: Answer)
    requires AnswerRight(sha, leaves, request, broken + missing, answer)
    requires forall k :: k in missing && k < |leaves| ==> k in lost
    ensures AnswerRight(sha, leaves, request, broken + lost, answer)
  {
    hide Expected;
  }

  method ServeSnapshot(l: Log, ghost lost: set<nat>) returns (reply: Reply)
    requires l.Valid()
    ensures reply.Snapped? && ReplyRight(l.sha, l.log, SnapshotOp, lost, reply, true)
  {
    hide Tree.Built, BuiltFrom, RootOf, VerifiedChain, Tabulates, ReplayAgrees;
    SameDigests(l.tree.leaves, l.log);
    var size, root, head := l.Snapshot();
    reply := Snapped(size, root, head);
  }

  /** A mirrored leaf goes missing while the log is up. */
  method DropLeaf(l: Log, idx: nat, ghost lost: set<nat>)
    requires l.Valid() && LostOnly(l.store.leafDb.leaves, |l.log|, lost)
    modifies l.store.leafDb
    ensures l.Valid() && l.tree.Caches() == old(l.tree.Caches())
    ensures LostOnly(l.store.leafDb.leaves, |l.log|, lost + {idx})
    ensures old(MirrorAgrees(l.store.leafDb.leaves, l.log)) ==> MirrorAgrees(l.store.leafDb.leaves, l.log)
    ensures old(l.tree.Right()) ==> l.tree.Right()
  {
    hide Tree.Built, Consistent, ReplayAgrees, BuiltFrom, AllCached, LeavesGood, MirrorAgrees;
    l.store.DeleteLeafHash(idx, l.log);
  }

  /** A producer's record is stored or revoked. */
  method ServeUpdate(l: Log, op: Op) returns (reply: Reply)
    requires l.Valid() && (op.RegisterOp? || op.RevokeOp?)
    modifies l.store`producers
    ensures l.Valid() && reply.Updated? && l.tree.Right() == old(l.tree.Right())
    ensures l.store.producers == ProducersStep(old(l.store.producers), op, reply)
    ensures AdmitRight(l.sha, l.requireEnrollment, old(l.store.producers), op, reply)
  {
    hide Consistent, ReplayAgrees, Tree.Built, BuiltFrom;
    var ok;
    if op.RegisterOp? {
      ok := l.store.RegisterProducer(op.producer, op.works);
    } else {
      ok := l.store.RevokeProducer(op.id, op.works);
    }
    reply := Updated(ok);
  }

  /** One operation on a running log. */
  method Serve(l: Log, op: Op, ghost lost: set<nat>) returns (reply: Reply)
    requires l.Valid() && |l.log| < TWO_TO_63 && !op.RestartOp? && LostOnly(l.store.leafDb.leaves, |l.log|, lost)
    modifies l, l.store, l.tree, l.tree.rng, l.tree.Caches()
    ensures l.Valid() && fresh(l.tree.Caches() - old(l.tree.Caches()))
    ensures l.log == if reply.IsAppended() then old(l.log) + [reply.outcome.entry] else old(l.log)
    ensures ReplyRight(l.sha, old(l.log), op, lost, reply, old(l.tree.Right()))
    ensures l.store.replay == TableStep(l.sha, old(l.store.replay), op, old(|l.log|), reply)
    ensures l.store.producers == ProducersStep(old(l.store.producers), op, reply)
    ensures AdmitRight(l.sha, l.requireEnrollment, old(l.store.producers), op, reply)
    ensures LostOnly(l.store.leafDb.leaves, |l.log|, lost + Dropped(op))
    ensures old(MirrorAgrees(l.store.leafDb.leaves, l.log)) ==> MirrorAgrees(l.store.leafDb.leaves, l.log)
    ensures old(l.tree.Right()) ==> l.tree.Right()
  {
    hide Consistent, ReplayAgrees, Tree.Right, Tree.Built, BuiltFrom, MirrorAgrees, AnswerRight, RootOf, SentBy,
      EnrolledAt;
    reply := NoReply;
    match op
    case AppendOp(s) => reply := ServeAppend(l, s, lost);
    case RegisterOp(_, _) => reply := ServeUpdate(l, op);
    case RevokeOp(_, _) => reply := ServeUpdate(l, op);
    case DropLeafOp(idx) => DropLeaf(l, idx, lost);
    case SnapshotOp => reply := ServeSnapshot(l, lost);
    case InclusionOp(_, _, _) => reply := ServeProof(l, op, lost);
    case ConsistencyOp(_, _, _) => reply := ServeProof(l, op, lost);
  }

  /** A consistent store scans as the log it holds, whose entries are under their own indices. */
  lemma HeldScans(sha: Hasher, store: Store, log: seq<Entry>)
    requires Held(sha, store, log) && |log| <= TWO_TO_63
    ensures IsScan(store.entries, |log|, log) && VerifiedChain(sha, log) && KeyedByIndex(store.entries)
  {
    hide VerifiedChain, Scan, ReplayAgrees, KeyedByIndex;
    ScanTable(store.entries, log, 0);
    assert log[0..] == log;
    ScannedTableIff(sha, store.entries, |log|, log);
  }

  lemma FilledNothingLost(leaves: map<nat, Bytes>, n: nat)
    requires AllMirrored(leaves, n)
    ensures LostOnly(leaves, n, {})
  {
  }

  /** A restart inside a run. */
  method Restart(sha: Hasher, store: Store, strict: bool, op: Op, ghost log: seq<Entry>)
    returns (up: Option<Log>)
    requires Held(sha, store, log) && |log| <= TWO_TO_63 && op.RestartOp?
    modifies store.leafDb
    ensures Held(sha, store, log)
    ensures up.Some? ==> Serving(up.value, sha, store, strict, log) && LostOnly(store.leafDb.leaves, |log|, {})
    ensures up.Some? ==> fresh(up.value) && fresh(up.value.tree) && fresh(up.value.tree.rng)
    ensures up.Some? ==> fresh(up.value.tree.Caches() - {store.leafDb})
    ensures up.Some? && (op.maxLeaf == 0 || old(MirrorAgrees(store.leafDb.leaves, log))) ==> up.value.tree.Right()
    ensures old(MirrorAgrees(store.leafDb.leaves, log)) ==> MirrorAgrees(store.leafDb.leaves, log)
  {
    hide VerifiedChain, IsScan, Tree.Right, Tree.Resident, Log.Running, ReplayAgrees, Tabulates, HeadOf, Backfilled,
      MirrorAgrees, AllMirrored, Accessible, KeyedByIndex, Recent, LostOnly;
    HeldScans(sha, store, log);
    ghost var was := store.leafDb.leaves;
    up := Open(sha, store, op.maxInternal, op.maxLeaf, strict, op.broken, |log|, log);
    BackfillKeepsAgreement(store.leafDb.leaves, was, log);
    if up.Some? {
      FilledNothingLost(store.leafDb.leaves, |log|);
    }
  }

  /** A log that is up serves `log`, every leaf not mirrored is lost, and leaf reads are right if they are
      known to be. */
  ghost predicate UpRight(up: Option<Log>, sha: Hasher, store: Store, strict: bool, log: seq<Entry>, lost: set<nat>,
                          right: bool)
    reads store, store.leafDb
    reads if up.Some? then {up.value, up.value.store, up.value.store.leafDb, up.value.tree, up.value.tree.rng,
                            up.value.tree.store, up.value.tree.leafLru, up.value.tree.internal}
                           + (set e | e in up.value.tree.leafLru.order) + (set e | e in up.value.tree.internal.order)
          else {}
  {
    up.Some? ==>
      && Serving(up.value, sha, store, strict, log) && LostOnly(store.leafDb.leaves, |log|, lost)
      && (right ==> up.value.tree.Right())
  }

  /** The objects a running log may change. */
  ghost function Own(l: Option<Log>): set<object>
    reads if l.Some? then {l.value, l.value.tree.leafLru, l.value.tree.internal} else {}
  {
    if l.Some? then {l.value, l.value.tree, l.value.tree.rng} + l.value.tree.Caches() else {}
  }

  /** Without a reply nothing is recorded. */
  lemma SilentOp(sha: Hasher, strict: bool, log: seq<Entry>, op: Op, lost: set<nat>, right: bool,
                 table: map<Bytes, nat>, producers: map<Bytes, Producer>)
    ensures Replied(sha, strict, log, op, lost, right, table, producers, NoReply, log, table, producers)
  {
  }

  lemma ServingHolds(l: Log)
    requires l.Valid()
    ensures Held(l.sha, l.store, l.log)
  {
    hide Consistent, ReplayAgrees, Tree.Built, BuiltFrom;
  }

  /** A reply that is right with right reads is so without knowing that they are. */
  lemma RightlessReply(sha: Hasher, log: seq<Entry>, op: Op, lost: set<nat>, reply: Reply, right: bool)
    requires ReplyRight(sha, log, op, lost, reply, right)
    ensures ReplyRight(sha, log, op, lost, reply, false)
  {
    hide AnswerRight;
  }

  /** What an operation replies and leaves: the longer log, the replay table and the registered producers. */
  ghost predicate Replied(sha: Hasher, strict: bool, log: seq<Entry>, op: Op, lost: set<nat>, right: bool,
                          table: map<Bytes, nat>, producers: map<Bytes, Producer>, reply: Reply, grown: seq<Entry>,
                          table': map<Bytes, nat>, producers': map<Bytes, Producer>)
  {
    && grown == (if reply.IsAppended() then log + [reply.outcome.entry] else log)
    && ReplyRight(sha, log, op, lost, reply, right) && AdmitRight(sha, strict, producers, op, reply)
    && table' == TableStep(sha, table, op, |log|, reply) && producers' == ProducersStep(producers, op, reply)
  }

  lemma LostMore(leaves: map<nat, Bytes>, n: nat, lost: set<nat>, more: set<nat>)
    ensures LostOnly(leaves, n, lost) ==> LostOnly(leaves, n, lost + more)
  {
  }

  /** One operation of a run: a restart, or a call on the log if it is up. `right` stands for leaf reads
      that are known to be right. */
  method TakeOp(sha: Hasher, store: Store, strict: bool, op: Op, l: Option<Log>, ghost log: seq<Entry>,
                ghost lost: set<nat>, ghost right: bool)
    returns (up: Option<Log>, reply: Reply, ghost grown: seq<Entry>)
    requires Held(sha, store, log) && |log| < TWO_TO_63 && UpRight(l, sha, store, strict, log, lost, right)
    requires right && op.RestartOp? ==> op.maxLeaf == 0 || MirrorAgrees(store.leafDb.leaves, log)
    modifies store, store.leafDb
    modifies Own(l)
    ensures Held(sha, store, grown)
    ensures UpRight(up, sha, store, strict, grown, lost + Dropped(op), right)
    ensures fresh(Own(up) - {store.leafDb} - old(Own(l)))
    ensures Replied(sha, strict, log, op, lost, right, old(store.replay), old(store.producers), reply, grown,
                    store.replay, store.producers)
    ensures old(MirrorAgrees(store.leafDb.leaves, log)) ==> MirrorAgrees(store.leafDb.leaves, grown)
  {
    hide Held, UpRight, Own, MirrorAgrees, Replied;
    if op.RestartOp? {
      up, reply, grown := TakeRestart(sha, store, strict, op, log, lost, right);
    } else if l.Some? {
      reply, grown := TakeCall(sha, store, strict, op, l.value, log, lost, right);
      up := l;
    } else {
      up, reply, grown := l, NoReply, log;
      SilentOp(sha, strict, log, op, lost, right, store.replay, store.producers);
      NobodyUp(sha, store, strict, log, lost + Dropped(op), right);
    }
  }

  lemma NobodyUp(sha: Hasher, store: Store, strict: bool, log: seq<Entry>, lost: set<nat>, right: bool)
    ensures UpRight(None, sha, store, strict, log, lost, right) && Own(None) == {}
  {
  }

  /** A restart in the terms of a run. */
  method TakeRestart(sha: Hasher, store: Store, strict: bool, op: Op, ghost log: seq<Entry>, ghost lost: set<nat>,
                     ghost right: bool)
    returns (up: Option<Log>, reply: Reply, ghost grown: seq<Entry>)
    requires Held(sha, store, log) && |log| < TWO_TO_63 && op.RestartOp?
    requires right ==> op.maxLeaf == 0 || MirrorAgrees(store.leafDb.leaves, log)
    modifies store.leafDb
    ensures Held(sha, store, grown)
    ensures UpRight(up, sha, store, strict, grown, lost + Dropped(op), right) && fresh(Own(up) - {store.leafDb})
    ensures Replied(sha, strict, log, op, lost, right, store.replay, store.producers, reply, grown,
                    store.replay, store.producers)
    ensures old(MirrorAgrees(store.leafDb.leaves, log)) ==> MirrorAgrees(store.leafDb.leaves, grown)
  {
    hide Held, Serving, Tree.Right, MirrorAgrees, LostOnly, Replied;
    reply, grown := NoReply, log;
    SilentOp(sha, strict, log, op, lost, right, store.replay, store.producers);
    up := Restart(sha, store, strict, op, log);
    LostMore(store.leafDb.leaves, |log|, {}, lost + Dropped(op));
    assert {} + (lost + Dropped(op)) == lost + Dropped(op);
  }

  /** A call in the terms of a run. */
  method TakeCall(sha: Hasher, store: Store, strict: bool, op: Op, l: Log, ghost log: seq<Entry>, ghost lost: set<nat>,
                  ghost right: bool)
    returns (reply: Reply, ghost grown: seq<Entry>)
    requires |log| < TWO_TO_63 && !op.RestartOp? && UpRight(Some(l), sha, store, strict, log, lost, right)
    modifies store, store.leafDb
    modifies Own(Some(l))
    ensures Held(sha, store, grown)
    ensures UpRight(Some(l), sha, store, strict, grown, lost + Dropped(op), right)
    ensures fresh(Own(Some(l)) - {store.leafDb} - old(Own(Some(l))))
    ensures Replied(sha, strict, log, op, lost, right, old(store.replay), old(store.producers), reply, grown,
                    store.replay, store.producers)
    ensures old(MirrorAgrees(store.leafDb.leaves, log)) ==> MirrorAgrees(store.leafDb.leaves, grown)
  {
    hide InStep, Log.Running, Tree.Right, MirrorAgrees, ReplyRight, TableStep, ProducersStep, AdmitRight, LostOnly,
      Held;
    reply := Serve(l, op, lost);
    grown := l.log;
    ServingHolds(l);
    if !right {
      RightlessReply(sha, log, op, lost, reply, old(l.tree.Right()));
    }
  }

  // ---- Runs ----

  /** The leaves lost before operation `i`. */
  ghost function Lost(ops: seq<Op>, i: nat): set<nat>
    requires i <= |ops|
  {
    if i == 0 then {} else Lost(ops, i - 1) + Dropped(ops[i - 1])
  }

  /** Every start keeps all leaves in memory. */
  ghost predicate Unbounded(ops: seq<Op>) { forall i :: 0 <= i < |ops| && ops[i].RestartOp? ==> ops[i].maxLeaf == 0 }

  /** The replay table after the first `k` operations: one row for each envelope that was recorded, with
      the length of the log at that moment. */
  ghost function TableAfter(sha: Hasher, table: map<Bytes, nat>, ops: seq<Op>, sizes: seq<nat>, replies: seq<Reply>,
                            k: nat): map<Bytes, nat>
    requires k <= |sizes| == |replies| <= |ops|
  {
    if k == 0 then table
    else TableStep(sha, TableAfter(sha, table, ops, sizes, replies, k - 1), ops[k - 1], sizes[k - 1], replies[k - 1])
  }

  lemma {:induction false} TableKept(sha: Hasher, table: map<Bytes, nat>, ops: seq<Op>, sizes: seq<nat>,
                                     replies: seq<Reply>, n: nat, reply: Reply, k: nat)
    requires k <= |sizes| == |replies| < |ops|
    ensures TableAfter(sha, table, ops, sizes + [n], replies + [reply], k)
            == TableAfter(sha, table, ops, sizes, replies, k)
  {
    hide TableStep;
    if k > 0 {
      TableKept(sha, table, ops, sizes, replies, n, reply, k - 1);
    }
  }

  lemma TableNext(sha: Hasher, table: map<Bytes, nat>, ops: seq<Op>, sizes: seq<nat>, replies: seq<Reply>, n: nat,
                  reply: Reply)
    requires |sizes| == |replies| < |ops|
    ensures TableAfter(sha, table, ops, sizes + [n], replies + [reply], |replies| + 1)
         == TableStep(sha, TableAfter(sha, table, ops, sizes, replies, |replies|), ops[|replies|], n, reply)
  {
    hide TableStep;
    TableKept(sha, table, ops, sizes, replies, n, reply, |replies|);
  }

  /** The registered producers after the first `k` operations. */
  ghost function ProducersAfter(first: map<Bytes, Producer>, ops: seq<Op>, replies: seq<Reply>,
                                k: nat): map<Bytes, Producer>
    requires k <= |replies| <= |ops|
  {
    if k == 0 then first
    else ProducersStep(ProducersAfter(first, ops, replies, k - 1), ops[k - 1], replies[k - 1])
  }

  lemma {:induction false} ProducersKept(first: map<Bytes, Producer>, ops: seq<Op>, replies: seq<Reply>, reply: Reply,
                                         k: nat)
    requires k <= |replies| < |ops|
    ensures ProducersAfter(first, ops, replies + [reply], k) == ProducersAfter(first, ops, replies, k)
  {
    hide ProducersStep;
    if k > 0 {
      ProducersKept(first, ops, replies, reply, k - 1);
    }
  }

  /** Every submission was decided by the records of that moment. */
  ghost predicate RunAdmitted(sha: Hasher, strict: bool, first: map<Bytes, Producer>, ops: seq<Op>, replies: seq<Reply>)
  {
    && |replies| <= |ops|
    && forall i :: 0 <= i < |replies| ==>
                     AdmitRight(sha, strict, ProducersAfter(first, ops, replies, i), ops[i], replies[i])
  }

  lemma RunAdmittedNext(sha: Hasher, strict: bool, first: map<Bytes, Producer>, ops: seq<Op>, replies: seq<Reply>,
                        reply: Reply)
    requires RunAdmitted(sha, strict, first, ops, replies) && |replies| < |ops|
    requires AdmitRight(sha, strict, ProducersAfter(first, ops, replies, |replies|), ops[|replies|], reply)
    ensures RunAdmitted(sha, strict, first, ops, replies + [reply])
    ensures ProducersAfter(first, ops, replies + [reply], |replies| + 1)
         == ProducersStep(ProducersAfter(first, ops, replies, |replies|), ops[|replies|], reply)
  {
    hide AdmitRight, ProducersStep;
    var all := replies + [reply];
    forall k | 0 <= k <= |replies|
      ensures ProducersAfter(first, ops, all, k) == ProducersAfter(first, ops, replies, k)
    {
      ProducersKept(first, ops, replies, reply, k);
    }
    forall i | 0 <= i < |all|
      ensures AdmitRight(sha, strict, ProducersAfter(first, ops, all, i), ops[i], all[i])
    {
    }
  }

  /** Every reply so far is right over the log as it was, and what was appended is there. */
  ghost predicate RunRight(sha: Hasher, log: seq<Entry>, ops: seq<Op>, sizes: seq<nat>, replies: seq<Reply>,
                           right: bool)
  {
    && |sizes| == |replies| <= |ops|
    && forall i :: 0 <= i < |replies| ==>
                     && sizes[i] <= |log| && ReplyRight(sha, log[..sizes[i]], ops[i], Lost(ops, i), replies[i], right)
                     && (replies[i].IsAppended() ==> sizes[i] < |log| && log[sizes[i]] == replies[i].outcome.entry)
  }

  lemma RunRightNext(sha: Hasher, log: seq<Entry>, grown: seq<Entry>, ops: seq<Op>, sizes: seq<nat>,
                     replies: seq<Reply>, reply: Reply, right: bool)
    requires RunRight(sha, log, ops, sizes, replies, right) && |replies| < |ops|
    requires ReplyRight(sha, log, ops[|replies|], Lost(ops, |replies|), reply, right)
    requires grown == if reply.IsAppended() then log + [reply.outcome.entry] else log
    ensures RunRight(sha, grown, ops, sizes + [|log|], replies + [reply], right)
  {
    hide ReplyRight, Lost;
    var ns, all := sizes + [|log|], replies + [reply];
    assert grown[..|log|] == log;
    forall i | 0 <= i < |all|
      ensures ns[i] <= |grown| && ReplyRight(sha, grown[..ns[i]], ops[i], Lost(ops, i), all[i], right)
      ensures all[i].IsAppended() ==> ns[i] < |grown| && grown[ns[i]] == all[i].outcome.entry
    {
      if i < |replies| {
        assert grown[..sizes[i]] == log[..sizes[i]];
      }
    }
  }

  /** Where a run stands before operation `i`: the files, and what has been replied. */
  ghost predicate Standing(sha: Hasher, store: Store, ops: seq<Op>, i: nat, table: map<Bytes, nat>, log: seq<Entry>,
                           sizes: seq<nat>, replies: seq<Reply>, agreed: bool, right: bool)
    reads store, store.leafDb
  {
    && Held(sha, store, log) && (agreed ==> MirrorAgrees(store.leafDb.leaves, log))
    && |sizes| == |replies| == i <= |ops| && RunRight(sha, log, ops, sizes, replies, right)
    && store.replay == TableAfter(sha, table, ops, sizes, replies, i)
  }

  /** And who is registered. */
  ghost predicate Registry(sha: Hasher, strict: bool, store: Store, first: map<Bytes, Producer>, ops: seq<Op>,
                           replies: seq<Reply>)
    reads store
  {
    && RunAdmitted(sha, strict, first, ops, replies)
    && store.producers == ProducersAfter(first, ops, replies, |replies|)
  }

  /** One operation of a run. */
  method RunOp(sha: Hasher, store: Store, strict: bool, ops: seq<Op>, i: nat, l: Option<Log>,
               ghost table: map<Bytes, nat>, ghost first: map<Bytes, Producer>, ghost log: seq<Entry>,
               ghost sizes: seq<nat>, ghost before: seq<Reply>, ghost agreed: bool, ghost right: bool)
    returns (up: Option<Log>, reply: Reply, ghost grown: seq<Entry>)
    requires i < |ops| && |log| < TWO_TO_63 && (right <==> agreed || Unbounded(ops))
    requires Standing(sha, store, ops, i, table, log, sizes, before, agreed, right)
    requires UpRight(l, sha, store, strict, log, Lost(ops, i), right)
    requires Registry(sha, strict, store, first, ops, before)
    modifies store, store.leafDb
    modifies Own(l)
    ensures Standing(sha, store, ops, i + 1, table, grown, sizes + [|log|], before + [reply], agreed, right)
    ensures UpRight(up, sha, store, strict, grown, Lost(ops, i + 1), right)
    ensures Registry(sha, strict, store, first, ops, before + [reply])
    ensures log <= grown && |grown| <= |log| + 1
    ensures fresh(Own(up) - {store.leafDb} - old(Own(l)))
  {
    hide Held, RunRight, MirrorAgrees, UpRight, Standing, Registry, Replied, Own;
    StandingMeans(sha, store, strict, ops, i, table, first, log, sizes, before, agreed, right);
    ghost var was, registered := store.replay, store.producers;
    up, reply, grown := TakeOp(sha, store, strict, ops[i], l, log, Lost(ops, i), right);
    RepliedNext(sha, strict, ops, log, grown, sizes, before, reply, table, was, store.replay, first, registered,
                store.producers, right);
    assert Standing(sha, store, ops, i + 1, table, grown, sizes + [|log|], before + [reply], agreed, right) by {
      StandingIs(sha, store, ops, i + 1, table, grown, sizes + [|log|], before + [reply], agreed, right);
    }
    RegistryIs(sha, store, strict, ops, first, before + [reply]);
  }

  lemma StandingMeans(sha: Hasher, store: Store, strict: bool, ops: seq<Op>, i: nat, table: map<Bytes, nat>,
                      first: map<Bytes, Producer>, log: seq<Entry>, sizes: seq<nat>, before: seq<Reply>, agreed: bool,
                      right: bool)
    requires Standing(sha, store, ops, i, table, log, sizes, before, agreed, right)
    requires Registry(sha, strict, store, first, ops, before)
    ensures Held(sha, store, log) && (agreed ==> MirrorAgrees(store.leafDb.leaves, log))
    ensures |sizes| == |before| == i <= |ops| && RunRight(sha, log, ops, sizes, before, right)
    ensures store.replay == TableAfter(sha, table, ops, sizes, before, i)
    ensures RunAdmitted(sha, strict, first, ops, before) && store.producers == ProducersAfter(first, ops, before, i)
  {
    hide Held, MirrorAgrees, RunRight, RunAdmitted, TableAfter, ProducersAfter;
  }

  lemma StandingIs(sha: Hasher, store: Store, ops: seq<Op>, i: nat, table: map<Bytes, nat>, log: seq<Entry>,
                   sizes: seq<nat>, replies: seq<Reply>, agreed: bool, right: bool)
    requires Held(sha, store, log) && (agreed ==> MirrorAgrees(store.leafDb.leaves, log))
    requires |sizes| == |replies| == i <= |ops| && RunRight(sha, log, ops, sizes, replies, right)
    requires store.replay == TableAfter(sha, table, ops, sizes, replies, i)
    ensures Standing(sha, store, ops, i, table, log, sizes, replies, agreed, right)
  {
    hide Held, MirrorAgrees, RunRight, TableAfter;
  }

  lemma RegistryIs(sha: Hasher, store: Store, strict: bool, ops: seq<Op>, first: map<Bytes, Producer>,
                   replies: seq<Reply>)
    requires RunAdmitted(sha, strict, first, ops, replies)
    requires store.producers == ProducersAfter(first, ops, replies, |replies|)
    ensures Registry(sha, strict, store, first, ops, replies)
  {
    hide RunAdmitted, ProducersAfter;
  }

  /** One more reply. */
  lemma RepliedNext(sha: Hasher, strict: bool, ops: seq<Op>, log: seq<Entry>, grown: seq<Entry>, sizes: seq<nat>,
                    before: seq<Reply>, reply: Reply, table: map<Bytes, nat>, was: map<Bytes, nat>,
                    now: map<Bytes, nat>, first: map<Bytes, Producer>, registered: map<Bytes, Producer>,
                    producers: map<Bytes, Producer>,
                    right: bool)
    requires |sizes| == |before| < |ops| && RunRight(sha, log, ops, sizes, before, right)
    requires was == TableAfter(sha, table, ops, sizes, before, |before|)
    requires RunAdmitted(sha, strict, first, ops, before) && registered == ProducersAfter(first, ops, before, |before|)
    requires Replied(sha, strict, log, ops[|before|], Lost(ops, |before|), right, was, registered, reply, grown, now,
                     producers)
    ensures log <= grown && |grown| <= |log| + 1
    ensures RunRight(sha, grown, ops, sizes + [|log|], before + [reply], right)
    ensures now == TableAfter(sha, table, ops, sizes + [|log|], before + [reply], |before| + 1)
    ensures RunAdmitted(sha, strict, first, ops, before + [reply])
    ensures producers == ProducersAfter(first, ops, before + [reply], |before| + 1)
  {
    hide RunRight, RunAdmitted, TableStep, TableAfter, ReplyRight, AdmitRight, ProducersStep, ProducersAfter, Lost;
    RunRightNext(sha, log, grown, ops, sizes, before, reply, right);
    TableNext(sha, table, ops, sizes, before, |log|, reply);
    RunAdmittedNext(sha, strict, first, ops, before, reply);
  }

  /** Any run: the store always holds one verified log, which only ever grows; every snapshot is the log's
      at that moment; the replay table holds exactly the rows that were recorded; an envelope is taken only
      if it is that of the producer registered at that moment, and refused only if it is not. If the mirror agreed at
      the beginning, or every start keeps all leaves in memory, every proof is the one a tree without
      caches gives for that log, or names a leaf whose read failed or that was lost. */
  method RunLog(sha: Hasher, store: Store, strict: bool, ops: seq<Op>, ghost start: seq<Entry>)
    returns (up: Option<Log>, replies: seq<Reply>, ghost sizes: seq<nat>, ghost log: seq<Entry>)
    requires Held(sha, store, start) && |start| + |ops| <= TWO_TO_63
    modifies store, store.leafDb
    ensures Held(sha, store, log) && start <= log
    ensures up.Some? ==> Serving(up.value, sha, store, strict, log)
    ensures |sizes| == |replies| == |ops|
    ensures RunRight(sha, log, ops, sizes, replies, old(MirrorAgrees(store.leafDb.leaves, start)) || Unbounded(ops))
    ensures store.replay == TableAfter(sha, old(store.replay), ops, sizes, replies, |ops|)
    ensures RunAdmitted(sha, strict, old(store.producers), ops, replies)
    ensures store.producers == ProducersAfter(old(store.producers), ops, replies, |ops|)
  {
    hide Held, Serving, RunRight, TableAfter, MirrorAgrees, UpRight, Standing, Unbounded, RunAdmitted;
    up, replies, sizes, log := None, [], [], start;
    ghost var agreed, table, first := MirrorAgrees(store.leafDb.leaves, start), store.replay, store.producers;
    ghost var right := agreed || Unbounded(ops);
    RunStarts(sha, store, strict, ops, start, right);
    for i := 0 to |ops|
      invariant Standing(sha, store, ops, i, table, log, sizes, replies, agreed, right)
      invariant UpRight(up, sha, store, strict, log, Lost(ops, i), right)
      invariant Registry(sha, strict, store, first, ops, replies)
      invariant start <= log && |log| + (|ops| - i) <= TWO_TO_63
      invariant fresh(Own(up) - {store.leafDb})
    {
      var reply;
      ghost var n, was, grown := |log|, replies, [];
      up, reply, grown := RunOp(sha, store, strict, ops, i, up, table, first, log, sizes, was, agreed, right);
      sizes, replies, log := sizes + [n], replies + [reply], grown;
    }
    RunEnds(up, sha, store, strict, ops, table, log, sizes, replies, agreed, right);
  }

  lemma RunStarts(sha: Hasher, store: Store, strict: bool, ops: seq<Op>, start: seq<Entry>, right: bool)
    requires Held(sha, store, start)
    ensures Standing(sha, store, ops, 0, store.replay, start, [], [], MirrorAgrees(store.leafDb.leaves, start), right)
    ensures UpRight(None, sha, store, strict, start, Lost(ops, 0), right)
    ensures Registry(sha, strict, store, store.producers, ops, [])
  {
    hide Held, MirrorAgrees, Serving;
    NothingRun(sha, start, ops, right);
  }

  lemma RunEnds(up: Option<Log>, sha: Hasher, store: Store, strict: bool, ops: seq<Op>, table: map<Bytes, nat>,
                log: seq<Entry>, sizes: seq<nat>, replies: seq<Reply>, agreed: bool, right: bool)
    requires Standing(sha, store, ops, |ops|, table, log, sizes, replies, agreed, right)
    requires UpRight(up, sha, store, strict, log, Lost(ops, |ops|), right)
    ensures Held(sha, store, log) && (up.Some? ==> Serving(up.value, sha, store, strict, log))
    ensures |sizes| == |replies| == |ops| && RunRight(sha, log, ops, sizes, replies, right)
    ensures store.replay == TableAfter(sha, table, ops, sizes, replies, |ops|)
  {
    hide Held, MirrorAgrees, Serving, RunRight, TableAfter, LostOnly;
  }

  lemma NothingRun(sha: Hasher, log: seq<Entry>, ops: seq<Op>, right: bool)
    ensures RunRight(sha, log, ops, [], [], right)
  {
  }

  /** Every entry a run appends was sent by the producer registered under its ID at that moment, who was not
      revoked: the registered key signed it, and the registered quantum key too if there is one. Where
      enrollment is required, the operator's key of the record's epoch had signed the record's terms, and
      they had not expired. */
  lemma EveryEntryWasSent(sha: Hasher, strict: bool, first: map<Bytes, Producer>, log: seq<Entry>, ops: seq<Op>,
                          sizes: seq<nat>, replies: seq<Reply>, right: bool, i: nat)
    requires RunRight(sha, log, ops, sizes, replies, right) && RunAdmitted(sha, strict, first, ops, replies)
    requires i < |replies| && replies[i].IsAppended()
    ensures sizes[i] < |log| && log[sizes[i]].envelope.Some?
    ensures var env, producers := log[sizes[i]].envelope.value, ProducersAfter(first, ops, replies, i);
            && env.producerId in producers
            && var p := producers[env.producerId];
               && !p.revoked && env.signature == Signed(Ed25519, p.publicKey, Attest.Canonical(env))
               && (p.quantumPublicKey != [] ==>
                     env.quantumSignature == Signed(Dilithium3, p.quantumPublicKey, Attest.Canonical(env)))
               && (strict ==>
                     && (p.expiresAt == 0 || log[sizes[i]].timeNanos < p.expiresAt)
                     && ops[i].AppendOp? && ops[i].s.chainKey(p.operatorEpoch).Some?
                     && var key := ops[i].s.chainKey(p.operatorEpoch).value;
                        p.signature == Signed(Ed25519, key, CanonicalEnrollment(p)))
  {
    hide ReplyRight, ProducersAfter, Attest.Canonical, CanonicalEnrollment, Lost;
    assert AdmitRight(sha, strict, ProducersAfter(first, ops, replies, i), ops[i], replies[i]);
    assert log[sizes[i]] == replies[i].outcome.entry;
  }

  // ---- What a verifier makes of the replies ----

  /** Proofs and snapshots of one run fit together, whichever came first: an inclusion proof for a size is
      accepted against the root of every snapshot of that size. */
  lemma RunInclusionVerifies(sha: Hasher, log: seq<Entry>, ops: seq<Op>, sizes: seq<nat>, replies: seq<Reply>, i: nat,
                             j: nat, idx: nat, size: nat, broken: set<nat>, proof: seq<Bytes>, root: Digest,
                             head: Bytes)
    requires RunRight(sha, log, ops, sizes, replies, true) && i < |replies| && j < |replies|
    requires replies[i] == Snapped(size, root, head)
    requires ops[j] == InclusionOp(idx, size, broken) && replies[j] == Answered(Proof(proof))
    ensures idx < size <= |log| && Accepts(sha, idx, size - 1, log[idx].leafHash, proof, root)
  {
    hide AuditPath, RootOf, Accepts, HeadBytes;
    var past, shown := log[..sizes[j]], log[..sizes[i]];
    assert ReplyRight(sha, past, ops[j], Lost(ops, j), replies[j], true);
    assert ReplyRight(sha, shown, ops[i], Lost(ops, i), replies[i], true);
    var leaves := LeafDigests(past);
    AnsweredProofsVerify(sha, leaves, idx, 0, size);
    assert leaves[..size] == LeafDigests(shown);
  }

  /** And a consistency proof against the roots of every two snapshots of those sizes. */
  lemma RunConsistencyVerifies(sha: Hasher, log: seq<Entry>, ops: seq<Op>, sizes: seq<nat>, replies: seq<Reply>, h: nat,
                               i: nat, j: nat, m: nat, n: nat, broken: set<nat>, proof: seq<Bytes>, oldRoot: Digest,
                               oldHead: Bytes, root: Digest, head: Bytes)
    requires RunRight(sha, log, ops, sizes, replies, true) && h < |replies| && i < |replies| && j < |replies|
    requires replies[h] == Snapped(m, oldRoot, oldHead) && replies[i] == Snapped(n, root, head) && 0 < n
    requires ops[j] == ConsistencyOp(m, n, broken) && replies[j] == Answered(Proof(proof))
    ensures ConsistencyAccepts(sha, m, n, proof, oldRoot, root)
  {
    hide SubProof, RootOf, ConsistencyAccepts, HeadBytes, Accepts, AuditPath;
    var past, older, newer := log[..sizes[j]], log[..sizes[h]], log[..sizes[i]];
    assert ReplyRight(sha, past, ops[j], Lost(ops, j), replies[j], true);
    assert ReplyRight(sha, older, ops[h], Lost(ops, h), replies[h], true);
    assert ReplyRight(sha, newer, ops[i], Lost(ops, i), replies[i], true);
    var leaves := LeafDigests(past);
    AnsweredProofsVerify(sha, leaves, 0, m, n);
    assert leaves[..m] == LeafDigests(older) && leaves[..n] == LeafDigests(newer);
  }
}
