/** `pkg/verify`: a client's checks of a checkpoint, an entry and a chain of anchored checkpoints. The
    consistency check it calls is a library's; the reference loop stands for it. */
module Anchors {
  import opened Encoding
  import opened Hashing
  import opened Rfc6962
  import opened Inclusion
  import opened Consistency
  import opened Options
  import opened Threshold
  import opened KeyChain
  import opened Checkpoints
  import opened LogEntry
  import MerkleTree
  import Attest

  datatype Verifier = Verifier(origin: Bytes, rootKey: Bytes, chain: Option<Chain>, group: Option<Group>,
                               minWitnesses: int, trust: Option<Bytes -> Option<Trust>>)

  ghost predicate CheckpointAccepted(sha: Hasher, v: Verifier, c: Checkpoint)
  {
    && c.origin == v.origin && OperatorSigned(sha, c, v.chain, v.rootKey, v.group)
    && (v.minWitnesses > 0 ==>
          v.trust.Some? && CountValid(c.witnesses, WitnessText(c), v.trust.value) >= v.minWitnesses)
  }

  /** `Verifier.Checkpoint`. */
  method CheckCheckpoint(sha: Hasher, v: Verifier, c: Checkpoint) returns (ok: bool)
    ensures ok <==> CheckpointAccepted(sha, v, c)
  {
    hide OperatorSigned, WitnessText;
    if c.origin != v.origin {
      return false;
    }
    var signed := Verify(sha, c, v.chain, v.rootKey, v.group);
    if !signed {
      return false;
    }
    if v.minWitnesses > 0 {
      if v.trust.None? {
        return false;
      }
      var valid := VerifyWitnesses(c, v.trust.value);
      return valid >= v.minWitnesses;
    }
    return true;
  }

  /** What a client accepts: a checkpoint of the expected origin, signed by the group or by the keys of its
      epoch, with enough countersignatures of trusted witnesses when some are asked for. */
  lemma CheckpointAcceptedIff(sha: Hasher, v: Verifier, c: Checkpoint)
    ensures CheckpointAccepted(sha, v, c) <==>
              && c.origin == v.origin
              && (if c.memberSigs != [] then MadeByMembers(sha, c, v.group)
                  else v.chain.Some? && ChainVerifies(sha, v.chain.value.certs, v.rootKey, None)
                       && MadeInEpoch(sha, c, v.chain.value.certs))
              && (v.minWitnesses <= 0
                  || (v.trust.Some? && |SignedAt(c.witnesses, WitnessText(c), v.trust.value)| >= v.minWitnesses))
  {
    hide OperatorSigned, WitnessText, CountValid, SignedAt, ChainVerifies, MadeInEpoch, MadeByMembers;
    OperatorSignedIff(sha, c, v.chain, v.rootKey, v.group);
    if v.trust.Some? {
      CountsSigned(c.witnesses, WitnessText(c), v.trust.value);
    }
  }

  /** `Verifier.Inclusion`. */
  method CheckInclusion(sha: Hasher, e: Entry, treeSize: nat, proof: seq<Bytes>, root: Bytes) returns (ok: bool)
    ensures ok <==> SelfVerifies(sha, e) && e.index < treeSize
                    && Accepts(sha, e.index, treeSize - 1, e.leafHash, proof, root)
  {
    hide SelfVerifies, Accepts;
    if !SelfVerifies(sha, e) || e.index >= treeSize {
      return false;
    }
    ok := VerifyInclusion(sha, e.index, treeSize, e.leafHash, proof, root);
  }

  /** How one anchored checkpoint must follow the one before it. */
  predicate AnchorStep(sha: Hasher, prev: Checkpoint, c: Checkpoint, proof: seq<Bytes>)
  {
    && prev.size <= c.size
    && if prev.size == c.size then prev.rootHash == c.rootHash
       else ConsistencyAccepts(sha, prev.size, c.size, proof, prev.rootHash, c.rootHash)
  }

  ghost predicate AnchorsAccepted(sha: Hasher, v: Verifier, records: seq<Option<Checkpoint>>, proofs: seq<seq<Bytes>>)
  {
    && records != [] && |proofs| == |records|
    && (forall i :: 0 <= i < |records| ==> records[i].Some? && CheckpointAccepted(sha, v, records[i].value))
    && (forall i :: 0 < i < |records| ==> AnchorStep(sha, records[i - 1].value, records[i].value, proofs[i]))
  }

  /** `AnchorChain`. */
  method AnchorChain(sha: Hasher, v: Verifier, records: seq<Option<Checkpoint>>,
                     proofs: seq<seq<Bytes>>) returns (ok: bool)
    ensures ok <==> AnchorsAccepted(sha, v, records, proofs)
  {
    hide CheckpointAccepted, ConsistencyAccepts;
    if |records| == 0 || |proofs| != |records| {
      return false;
    }
    var prev: Option<Checkpoint> := None;
    for i := 0 to |records|
      invariant prev == if i == 0 then None else records[i - 1]
      invariant forall j :: 0 <= j < i ==> records[j].Some? && CheckpointAccepted(sha, v, records[j].value)
      invariant forall j :: 0 < j < i ==> AnchorStep(sha, records[j - 1].value, records[j].value, proofs[j])
    {
      if records[i].None? {
        return false;
      }
      var c := records[i].value;
      var accepted := CheckCheckpoint(sha, v, c);
      if !accepted {
        return false;
      }
      if prev.Some? {
        var p := prev.value;
        assert AnchorStep(sha, p, c, proofs[i]) <==> AnchorStep(sha, records[i - 1].value, records[i].value, proofs[i]);
        if c.size < p.size {
          return false;
        }
        if c.size == p.size {
          if c.rootHash != p.rootHash {
            return false;
          }
        } else {
          var consistent := VerifyConsistency(sha, p.size, c.size, proofs[i], p.rootHash, c.rootHash);
          if !consistent {
            return false;
          }
        }
      }
      prev := Some(c);
    }
    return true;
  }

  // ---- What an accepted chain means ----

  /** The record's root is the root of the first leaves of `hs`; an empty record says nothing. */
  ghost predicate RootIsPrefix(sha: Hasher, hs: seq<Digest>, c: Checkpoint)
  {
    c.size > 0 ==> c.size <= |hs| && c.rootHash == SubRoot(sha, hs, 0, c.size)
  }

  /** The node a proof starts from has the length of a hash. A caller can check it on the proof. */
  predicate SeedIsHash(prev: Checkpoint, c: Checkpoint, proof: seq<Bytes>)
  {
    0 < prev.size < c.size ==>
      var nodes := ProofNodes(prev.size, proof, prev.rootHash);
      nodes != [] && |nodes[0]| == 32
  }

  /** `messages` covers what the step's check and the two trees hash. */
  ghost predicate StepCovered(sha: Hasher, hs: seq<Digest>, prev: Checkpoint, c: Checkpoint, proof: seq<Bytes>,
                              messages: set<Bytes>)
  {
    0 < prev.size < c.size <= |hs| ==>
      && CoversCheck(sha, prev.size, c.size, proof, prev.rootHash, messages)
      && CoversTree(sha, hs, prev.size, messages) && CoversTree(sha, hs, c.size, messages)
  }

  /** One step back: the earlier root is right exactly when the proof starts from a hash. */
  lemma StepBack(sha: Hasher, hs: seq<Digest>, prev: Checkpoint, c: Checkpoint, proof: seq<Bytes>, messages: set<Bytes>)
    requires AnchorStep(sha, prev, c, proof) && CollisionFree(sha, messages)
    requires StepCovered(sha, hs, prev, c, proof, messages)
    requires c.size <= |hs| && RootIsPrefix(sha, hs, c)
    ensures RootIsPrefix(sha, hs, prev) <==> SeedIsHash(prev, c, proof)
  {
    hide SubRoot, ConsistencyAccepts, ProofNodes, CollisionFree, CoversCheck, CoversTree;
    if 0 < prev.size < c.size {
      ConsistencySound(sha, hs, prev.size, c.size, proof, prev.rootHash, c.rootHash, messages);
    }
  }

  ghost predicate AllCoveredBy(sha: Hasher, hs: seq<Digest>, cs: seq<Checkpoint>, proofs: seq<seq<Bytes>>,
                               messages: set<Bytes>)
    requires |cs| == |proofs|
  {
    forall i :: 0 < i < |cs| ==> StepCovered(sha, hs, cs[i - 1], cs[i], proofs[i], messages)
  }

  ghost predicate Stepwise(sha: Hasher, cs: seq<Checkpoint>, proofs: seq<seq<Bytes>>)
    requires |cs| == |proofs|
  {
    forall i :: 0 < i < |cs| ==> AnchorStep(sha, cs[i - 1], cs[i], proofs[i])
  }

  /** Backwards from the last record to record `k`. */
  lemma {:induction false} PrefixesFrom(sha: Hasher, hs: seq<Digest>, cs: seq<Checkpoint>, proofs: seq<seq<Bytes>>,
                                        k: nat, messages: set<Bytes>)
    requires |cs| == |proofs| && k < |cs| && Stepwise(sha, cs, proofs)
    requires CollisionFree(sha, messages) && AllCoveredBy(sha, hs, cs, proofs, messages)
    requires cs[|cs| - 1].size == |hs| && RootIsPrefix(sha, hs, cs[|cs| - 1])
    ensures cs[k].size <= |hs|
    ensures (forall i :: k <= i < |cs| ==> RootIsPrefix(sha, hs, cs[i]))
       <==> (forall i :: k < i < |cs| ==> SeedIsHash(cs[i - 1], cs[i], proofs[i]))
    decreases |cs| - k
  {
    hide RootIsPrefix, SeedIsHash, StepCovered, ConsistencyAccepts, CollisionFree;
    if k + 1 < |cs| {
      PrefixesFrom(sha, hs, cs, proofs, k + 1, messages);
      assert AnchorStep(sha, cs[k + 1 - 1], cs[k + 1], proofs[k + 1]);
      assert StepCovered(sha, hs, cs[k + 1 - 1], cs[k + 1], proofs[k + 1], messages);
      if RootIsPrefix(sha, hs, cs[k + 1]) {
        StepBack(sha, hs, cs[k], cs[k + 1], proofs[k + 1], messages);
      }
      RangeSplit(sha, hs, cs, proofs, k);
    }
  }

  lemma RangeSplit(sha: Hasher, hs: seq<Digest>, cs: seq<Checkpoint>, proofs: seq<seq<Bytes>>, k: nat)
    requires |cs| == |proofs| && k + 1 < |cs|
    ensures (forall i :: k <= i < |cs| ==> RootIsPrefix(sha, hs, cs[i]))
       <==> RootIsPrefix(sha, hs, cs[k]) && (forall i :: k + 1 <= i < |cs| ==> RootIsPrefix(sha, hs, cs[i]))
    ensures (forall i :: k < i < |cs| ==> SeedIsHash(cs[i - 1], cs[i], proofs[i]))
       <==> && SeedIsHash(cs[k], cs[k + 1], proofs[k + 1])
            && (forall i :: k + 1 < i < |cs| ==> SeedIsHash(cs[i - 1], cs[i], proofs[i]))
  {
    hide RootIsPrefix, SeedIsHash;
    assert SeedIsHash(cs[k + 1 - 1], cs[k + 1], proofs[k + 1]) <==> SeedIsHash(cs[k], cs[k + 1], proofs[k + 1]);
  }

  /** If the chain is accepted and its last root is the root of `hs`, then every non-empty record's
      root is the root of a prefix of `hs`, exactly when every proof starts from a 32-byte node. */
  lemma AnchorsArePrefixes(sha: Hasher, v: Verifier, records: seq<Option<Checkpoint>>, proofs: seq<seq<Bytes>>,
                           cs: seq<Checkpoint>, hs: seq<Digest>, messages: set<Bytes>)
    requires AnchorsAccepted(sha, v, records, proofs)
    requires |cs| == |records| && forall i :: 0 <= i < |cs| ==> records[i] == Some(cs[i])
    requires cs[|cs| - 1].size == |hs| && RootIsPrefix(sha, hs, cs[|cs| - 1])
    requires CollisionFree(sha, messages) && AllCoveredBy(sha, hs, cs, proofs, messages)
    ensures (forall i :: 0 <= i < |cs| ==> RootIsPrefix(sha, hs, cs[i]))
       <==> (forall i :: 0 < i < |cs| ==> SeedIsHash(cs[i - 1], cs[i], proofs[i]))
  {
    hide RootIsPrefix, SeedIsHash, StepCovered, AnchorStep, CollisionFree, CheckpointAccepted;
    forall i | 0 < i < |cs|
      ensures AnchorStep(sha, cs[i - 1], cs[i], proofs[i])
    {
      assert AnchorStep(sha, records[i - 1].value, records[i].value, proofs[i]);
    }
    PrefixesFrom(sha, hs, cs, proofs, 0, messages);
  }

  // ---- Checkpoints of one log ----

  /** The consistency proof a tree over `hs` answers. */
  ghost function TreeProof(sha: Hasher, hs: seq<Digest>, m: nat, n: nat): seq<Bytes>
  {
    if m == 0 || m >= n || n > |hs| then [] else SubProof(sha, hs, m, 0, n, true)
  }

  /** The checkpoint shows the first leaves of `hs`. */
  ghost predicate Shows(sha: Hasher, hs: seq<Digest>, c: Checkpoint)
  {
    c.size <= |hs| && c.rootHash == RootOf(sha, hs[..c.size])
  }

  lemma StepComplete(sha: Hasher, hs: seq<Digest>, prev: Checkpoint, c: Checkpoint)
    requires Shows(sha, hs, prev) && Shows(sha, hs, c) && prev.size <= c.size
    ensures AnchorStep(sha, prev, c, TreeProof(sha, hs, prev.size, c.size))
  {
    hide RootOf, SubProof, ConsistencyAccepts, Accepts, AuditPath;
    if prev.size < c.size {
      MerkleTree.AnsweredProofsVerify(sha, hs, 0, prev.size, c.size);
    }
  }

  /** Checkpoints of one growing log, in order, with the tree's own proofs between them: the chain is
      accepted exactly when each checkpoint is. */
  lemma OwnAnchorsAccepted(sha: Hasher, v: Verifier, hs: seq<Digest>, cs: seq<Checkpoint>,
                           records: seq<Option<Checkpoint>>, proofs: seq<seq<Bytes>>)
    requires cs != [] && |cs| == |records| == |proofs| && forall i :: 0 <= i < |cs| ==> records[i] == Some(cs[i])
    requires forall i :: 0 <= i < |cs| ==> Shows(sha, hs, cs[i])
    requires forall i :: 0 < i < |cs| ==> cs[i - 1].size <= cs[i].size
    requires forall i :: 0 < i < |cs| ==> proofs[i] == TreeProof(sha, hs, cs[i - 1].size, cs[i].size)
    ensures AnchorsAccepted(sha, v, records, proofs) <==>
            forall i :: 0 <= i < |cs| ==> CheckpointAccepted(sha, v, cs[i])
  {
    hide Shows, TreeProof, AnchorStep, CheckpointAccepted;
    forall i | 0 < i < |cs|
      ensures AnchorStep(sha, records[i - 1].value, records[i].value, proofs[i])
    {
      StepComplete(sha, hs, cs[i - 1], cs[i]);
    }
    if AnchorsAccepted(sha, v, records, proofs) {
      forall i | 0 <= i < |cs|
        ensures CheckpointAccepted(sha, v, cs[i])
      {
        assert CheckpointAccepted(sha, v, records[i].value);
      }
    }
  }

  // ---- What an accepted inclusion proof means ----

  /** `messages` covers what the check and the tree hash, and the leaf inputs of both entries. */
  ghost predicate InclusionCovered(sha: Hasher, hs: seq<Digest>, e: Entry, logged: Entry, proof: seq<Bytes>,
                                   messages: set<Bytes>)
    requires e.index < |hs|
  {
    && CoversTree(sha, hs, |hs|, messages) && CoversRun(sha, e.index, |hs| - 1, e.leafHash, proof, messages)
    && LeafInput(EntryBytes(sha, e)) in messages && LeafInput(EntryBytes(sha, logged)) in messages
    && Covered(sha, e, messages) && Covered(sha, logged, messages)
  }

  /** An entry accepted against the root of a log is that log's entry at its index: every field under
      the leaf hash is the logged one. */
  lemma IncludedIsLogged(sha: Hasher, log: seq<Entry>, hs: seq<Digest>, e: Entry, proof: seq<Bytes>, root: Bytes,
                         messages: set<Bytes>)
    requires |log| == |hs| && VerifiedChain(sha, log) && forall i :: 0 <= i < |log| ==> hs[i] == log[i].leafHash
    requires SelfVerifies(sha, e) && e.index < |hs| && |e.prevHash| < TWO_TO_32
    requires Accepts(sha, e.index, |hs| - 1, e.leafHash, proof, root) && root == SubRoot(sha, hs, 0, |hs|)
    requires CollisionFree(sha, messages) && InclusionCovered(sha, hs, e, log[e.index], proof, messages)
    ensures var logged := log[e.index];
            && e.index == logged.index && e.timeNanos == logged.timeNanos && e.honeypot == logged.honeypot
            && PrevOf(e) == logged.prevHash && e.entryHash == logged.entryHash && e.leafHash == logged.leafHash
            && e.envelope.Some? && logged.envelope.Some? && Attest.SameSigned(e.envelope.value, logged.envelope.value)
  {
    hide SubRoot, Accepts, CoversTree, CoversRun, EntryBytes, VerifiedChain, Attest.Verifies, Covered;
    var logged := log[e.index];
    Link(sha, log, e.index);
    ChainPrevIsDigest(sha, log, e.index);
    InclusionSound(sha, hs, |hs|, e.index, e.leafHash, proof, root, messages);
    SameLeafSameBytes(sha, EntryBytes(sha, e), EntryBytes(sha, logged), messages);
    BytesFixEntry(sha, e, logged, messages);
  }

  lemma SameLeafSameBytes(sha: Hasher, a: Bytes, b: Bytes, messages: set<Bytes>)
    requires CollisionFree(sha, messages) && LeafInput(a) in messages && LeafInput(b) in messages
    requires LeafHash(sha, a) == LeafHash(sha, b)
    ensures a == b
  {
    CancelPrefix([0], a, b);
  }
}
