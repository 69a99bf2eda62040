# Stele verification

A Dafny model of stele, a tamper-evident log with forward-secure keys, threshold signing and a mesh of
witnesses, and proofs about all its inputs and all its runs.

The four state machines of the system are modelled in the form the source has them: the Merkle tree
with its two bounded caches, the witness server and its gossip, the operator log over its store, and
the forward-secure signer with its key files are classes whose methods change fields; the verifiers
and encoders are loops and appends; what they compute is specified by functions, and the promises are
proved as lemmas about those functions and as invariants kept by every method. Protocol claims are
about runs: any sequence of steps, with failing saves, crashes and restarts among them.

## How the world is modelled

- SHA-256 is a parameter `sha`. No function onto 32 bytes is injective, so theorems that need
  collision resistance ask for it only on the finite set of messages the objects of the theorem hash.
- Signatures are ideal: a signature records who signed what, and verifying is comparing. Where an
  honest key must not have been forged, the theorem says so (`Quorum.Unforged`).
- Clocks, random draws, network replies and the success of each file or database call are arguments,
  so that every failure is an input like any other. A database transaction or a write-then-rename is
  one atomic step that may fail without effect.
- Integers are unbounded; 64-bit indices, 32-bit length prefixes and their wrap-around are written
  out where they matter. Trees are bounded by 2^63 leaves, so that doubling does not wrap.

## Files

- `Encoding`, `Fields`, `TextLines`, `Crypto`: bytes, the two encoding shapes, ideal signatures.
- `Rfc6962`, `Inclusion`, `Consistency`: tree hashes and the two verifier loops.
- `CompactRange`, `ProofNodes`, `LruCache`, `MerkleTree`, `TreeRuns`: the tree with its caches.
- `Attest`, `Producers`, `LogEntry`, `Threshold`, `GroupCanonical`: records, their bytes, t-of-N.
- `KeyChain`, `KeyStore`, `Fwdsec`: the key chain, the key files, the signer that rotates between them.
- `Enrollment`, `EnrollmentDesk`: the enrollment ceremony, interleaved and call by call.
- `Storage`, `CoreLog`, `LogReplay`, `LogRuns`, `AlteredFiles`, `Mirroring`: the store, the operator log,
  its start, its runs, what a start does not check, the mirror.
- `Checkpoint`, `CheckpointSigner`, `Anchors`, `Witnessing`, `WitnessServer`, `Mesh`, `Quorum`: checkpoints and witnesses.

## Where the code and its documentation differ

The model follows the code. Each difference is proved, with the exact condition under which the
documented property holds.

- The reference consistency check does not look at node lengths. The old root is right exactly when
  the node the proof starts from is 32 bytes long (`Consistency.ConsistencySound`,
  `Consistency.ShortSeedAccepted`), and this carries over to anchor chains
  (`Anchors.AnchorsArePrefixes`).
- The checks do not look at node lengths on the leaf side either: a 32-byte leaf hash is the logged one,
  and any accepted proof with a sibling is accepted for other lengths (`Inclusion.InclusionSound`,
  `Inclusion.OtherLeavesAccepted`). Sizes in the wrong order are not refused as such
  (`Consistency.ShrinkingAcceptedIff`).
- An entry chain is documented to start at any index. The code accepts exactly those that start at 0
  (`LogEntry.ChainIsFirstSegment`, `LogEntry.TailRefused`).
- A start is documented to fail on altered files, so that they cannot serve proofs. A mirrored leaf is
  never compared with its entry: the root is right whatever the mirror holds, and leaf reads are right,
  then and in every later run, exactly if the leaf cap is 0 or every non-empty mirrored leaf agrees
  (`LogReplay.Replay`, `LogRuns.RunLog`, `AlteredFiles.ServeAltered`). Nor are the stored size, the head,
  the keys of the entries and the replay table looked at: the opened log is in agreement exactly if they
  agree with the scan (`LogReplay.Open`, `AlteredFiles.ServeTruncated`).
- A verified consent is documented to prove consent to the terms of the record. Without a nonce the
  challenge is the empty message; one signature fits different terms exactly if neither record has a
  nonce (`Producers.ChallengesEqualIff`, `Producers.ConsentIsNotReusable`,
  `Producers.ConsentWithoutNonce`).
- A refused replay is documented to name the entry that was first. After a failed append its index can
  go to another envelope; the row leads to its own exactly when the log has it
  (`CoreLog.RowNamesEntryIff`, `CoreLog.RefusalNamesOther`).
- The count of countersignatures is documented as distinct witnesses. The loop counts list elements,
  which is the same exactly when no witness counts twice (`Checkpoints.CountsDistinctIff`).
- A failed append is documented to leave the disk unchanged. The replay row is written before the
  entry, so it stays when the entry's own transaction fails (`CoreLog.Log.Append`,
  `CoreLog.RetryAfterFailure`).
- A checkpoint is signed under one epoch. The call takes its lock several times; with rotations in between the
  checkpoint is refused exactly if another key than that of the epoch it names was used
  (`CheckpointSigner.SignedAcrossRotationsIff`).
- A rotation takes its start time from the clock without comparing it with the last one. The chain
  verifies exactly when the times do not go back (`KeyChain.LinkedVerifiesIff`,
  `KeyChain.BackwardClockExample`).
- Destroying the previous key before swapping in the new one is said to leave no two recoverable keys
  after a crash. The chain is written first, so every rotation passes through a state with both
  (`Fwdsec.Signer.Rotate`). A destroyed key is said to be gone; when its file cannot be looked at, the
  call succeeds and the file stays (`KeyStore.LiveKey.Destroy`). What is left readable is exact
  (`Fwdsec.RunSigner`).
- An enrollment is signed under one epoch. A hybrid operator signs in two separate calls and checks the
  epoch after the first only, so the record is valid exactly if no other key is active at the second
  (`Enrollment.CeremonySound`, `Enrollment.RotatedBetween`).
- A fork flag is meant to stay until it is cleared. A failing save is ignored, and a restart keeps the
  flag exactly when it is on disk (`Mesh.StepKeepsFlag`, `Mesh.UnsavedFlagLostIff`).
- A gossip reply is compared under the origin asked for, whatever origin it states. Between healthy
  logs it raises an alarm only if the two origins differ (`Mesh.MisroutedReplyFlagsIff`). The
  cross-attestation after it is under the origin stated, and covers every common size exactly if the views
  do not contradict each other there (`WitnessServer.Server.GossipOne`).

## Model

| member | source | states |
|---|---|---|
| `Rfc6962.ReferenceRoot` | testdata/vectors/verify_vectors.py:179-191 | the reference root, with its doubling loop, is the recursive RFC 6962 tree hash, with the prefixes written out for one and two leaves, the empty root included |
| `Rfc6962.RootCommits` | testdata/vectors/verify_vectors.py:171-191 | the root commits to the raw leaves and their number: without collisions among the messages of two trees of any sizes, equal roots mean the same leaves |
| `Rfc6962.NodeIsSubRoot` | pkg/merkle/merkle.go:332-371 | the node (height, index) of the level-by-level tree is the recursive root of its leaf range, cut off at the end of the tree |
| `Rfc6962.TopNodeIsRoot` | pkg/merkle/merkle.go:345-371 | the one node left at the top is the root of the whole tree |
| `Rfc6962.CompleteNodeStable` | pkg/merkle/merkle.go:225-235 | a complete node keeps its hash however far the tree grows, which is what makes caching it sound |
| `Inclusion.VerifyInclusion` | testdata/vectors/verify_vectors.py:194-214 | the index-shifting loop decides exactly the specification `Accepts`, on every input |
| `Inclusion.InclusionSound` | testdata/vectors/verify_vectors.py:194-214 | under a hash that is collision free on the hashed messages, an accepted leaf hash is the logged one exactly when it is 32 bytes long |
| `Inclusion.OtherLeavesAccepted` | testdata/vectors/verify_vectors.py:194-214 | every accepted proof with a sibling in it is accepted for other leaves too: a left leaf cut anywhere, or a right leaf with bytes of its sibling in front |
| `Inclusion.InclusionComplete` | testdata/vectors/verify_vectors.py:194-214 | the RFC audit path of every index is accepted against the root |
| `Inclusion.AuditPathIsPathFrom` | pkg/merkle/merkle.go:345-371 | the recursive audit path of section 2.1.1 of RFC 6962 is the level-by-level path of siblings |
| `Consistency.VerifyConsistency` | testdata/vectors/verify_vectors.py:217-249 | the loop decides exactly the specification `ConsistencyAccepts`, on every input |
| `Consistency.ConsistencySound` | testdata/vectors/verify_vectors.py:217-249 | if the new root is that of n leaves and the check accepts, the old root is that of the first m exactly when the node the proof starts from is 32 bytes long |
| `Consistency.ConsistencyMeansPrefix` | testdata/vectors/verify_vectors.py:217-249 | with 32-byte nodes, acceptance for 0 < m <= n means the old root is the root of the first m leaves |
| `Consistency.ShortSeedAccepted` | testdata/vectors/verify_vectors.py:217-249 | without a length check on the starting node a wrong old root is accepted, shown on a concrete proof |
| `Consistency.ShrinkingAcceptedIff` | testdata/vectors/verify_vectors.py:217-249 | for every old size above the new one, the loop accepts some proof and roots if and only if the new size is not zero |
| `Consistency.ConsistencyComplete` | testdata/vectors/verify_vectors.py:217-249 | the RFC consistency proof between any two sizes is accepted |
| `CompactRange.Range.constructor` | pkg/merkle/merkle.go:131-146 | an empty range holds no leaves |
| `CompactRange.Range.Append` | pkg/merkle/merkle.go:225-235 | the binary counter of complete subtree roots holds the longer list, and each node visited is reported with its RFC hash |
| `CompactRange.Range.GetRootHash` | pkg/merkle/merkle.go:202-213 | folding the stack gives the recursive root |
| `ProofNodes.InclusionNodesGiveAuditPath` | pkg/merkle/merkle.go:271-280 | the node list of an inclusion request, rehashed at the right edge, is the RFC audit path, and every listed node is complete and inside the tree |
| `ProofNodes.ConsistencyNodesGiveSubProof` | pkg/merkle/merkle.go:285-300 | the same for consistency requests and the RFC sub-proof |
| `LruCache.Lru.Get` | pkg/merkle/merkle.go:243-266 | a hit returns the stored hash and moves the key to the front; list and index stay in bijection |
| `LruCache.Lru.Put` | pkg/merkle/merkle.go:149-189 | after a put the key is in front, the least recent key is dropped when a positive cap is exceeded, the rest is kept in order, and list and index stay in bijection |
| `MerkleTree.Tree.constructor` | pkg/merkle/merkle.go:131-146 | an empty tree over a store, for every pair of caps and whatever the store holds |
| `MerkleTree.Tree.Root` | pkg/merkle/merkle.go:202-213 | the incremental root is the recursive root of all leaves appended, the empty root for none, whatever the store holds |
| `MerkleTree.Tree.PutLeaf` | pkg/merkle/merkle.go:149-165 | the store and the cache hold the hash given, the other keys keep theirs, and the residency rule is the least-recently-used one |
| `MerkleTree.Tree.PutInternal` | pkg/merkle/merkle.go:169-189 | the same for interior nodes |
| `MerkleTree.Tree.AppendLeafHash` | pkg/merkle/merkle.go:225-235 | on any store: the tree stands for one more leaf, the resident leaves follow the least-recently-used rule, and the index is the old size; leaf reads stay right unless the store has another value for the new leaf |
| `MerkleTree.Tree.LookupLeaf` | pkg/merkle/merkle.go:243-260 | on any store: exactly when a leaf can be read, from the cache or the store, and what is read; the tree's own leaf if leaf reads are right; a failure names a key whose read failed or that is missing or empty |
| `MerkleTree.Tree.RecomputeRange` | pkg/merkle/merkle.go:345-371 | recomputing a leaf range gives its recursive root if leaf reads are right, and keeps them right; the doubling stays within 64 bits |
| `MerkleTree.Tree.NodeOf` | pkg/merkle/merkle.go:332-341 | cached, evicted or ephemeral, a node's hash is the RFC hash of its leaf range if leaf reads are right; a leaf is what the cache or the store has, right or not |
| `MerkleTree.Tree.Materialise` | pkg/merkle/merkle.go:306-323 | for every cap, cache state and store: if leaf reads are right, the hashes are those of an uncached tree; in any case the first leaf listed is the one the cache or the store has |
| `MerkleTree.Tree.InclusionProof` | pkg/merkle/merkle.go:271-280 | on any store: refused exactly for an index or size out of range; if leaf reads are right, the answer is the RFC audit path; a first sibling that is a leaf is served as the cache or the store has it |
| `MerkleTree.Tree.ConsistencyProof` | pkg/merkle/merkle.go:285-300 | on any store: refused exactly for sizes out of range; if leaf reads are right, empty for an old size of zero or the same size and otherwise the RFC proof |
| `MerkleTree.AnsweredProofsVerify` | pkg/merkle/merkle.go:271-300 | proofs the tree answers are accepted by the reference verifiers against the roots the tree had |
| `TreeRuns.AnswerOne` | pkg/merkle/merkle.go:225-300 | over the in-memory or the durable store: while leaf reads are right, one request is answered as a tree without caches would answer it, or names a leaf whose read failed or that is missing, and they stay right |
| `TreeRuns.AnswerAll` | pkg/merkle/merkle.go:149-371 | for every pair of caps, every interleaving of appends and proof requests and every choice of failing reads, each answer is that of a tree without caches or names a leaf whose read failed in that request |
| `TreeRuns.AnswerAllInMemory` | pkg/merkle/merkle.go:149-371 | over the in-memory store, which never fails, all answers are those of a tree without caches, outright |
| `Fields.SelfDelimiting` | pkg/storage/producers.go:168-190 | two field runs of one shape that start the same bytes are equal and leave the same rest: the one theorem behind every length-prefixed encoding |
| `Fields.ReadBack` | pkg/attest/attest.go:84-103 | a reader that knows only the shape gets back every field and what follows |
| `Attest.WriteEnvelope` | pkg/attest/attest.go:84-103 | the append-by-append encoder writes the specified field run |
| `Attest.CanonicalInjective` | pkg/attest/attest.go:84-103 | for lengths below 2^32, equal bytes if and only if equal signed fields |
| `Attest.SignatureBindsFields` | pkg/attest/attest.go:115-151 | a signature vouches for exactly one envelope: its signed fields, its quantum half and, wherever it comes along, its evidence |
| `Attest.VerifiedIsSigned` | pkg/attest/attest.go:115-154 | a verified envelope was signed by its own keys, in both halves if it names a quantum key, and its evidence is the one signed |
| `Attest.SoftwareSign` | pkg/attest/software.go:149-177 | what the software attestor makes verifies, whatever it is made of |
| `Attest.EnvelopeReadBack` | pkg/attest/attest.go:84-103 | every signed field can be read from the signed bytes, in the order of the encoding |
| `Producers.WriteEnrollment` | pkg/storage/producers.go:168-190 | the encoder writes the specified field run |
| `Producers.EnrollmentSelfDelimiting` | pkg/storage/producers.go:168-190 | enrollment bytes followed by anything determine the terms and what follows |
| `Producers.EnrollmentInjective` | pkg/storage/producers.go:168-190 | equal enrollment bytes if and only if equal terms |
| `Producers.ChallengesEqualIff` | pkg/storage/producers.go:92-102 | equal challenges if and only if neither record has a nonce, or terms and nonce are equal |
| `Producers.ChallengeIsNotEnrollment` | pkg/storage/producers.go:92-102 | a challenge, present or absent, is never the bytes of an enrollment |
| `Producers.ConsentIsNotReusable` | pkg/storage/producers.go:120-150 | a consent signature valid on two records, not both without a nonce, was given for the same terms and nonce |
| `Producers.ConsentWithoutNonce` | pkg/storage/producers.go:120-150 | without a nonce, a consent given for one record is valid for every record under the same key, whatever its terms |
| `Producers.EmptyChallengeExample` | pkg/storage/producers.go:120-150 | one signature of the empty message is consent to any scope and any expiry |
| `Producers.ConsentIff` | pkg/attest/software.go:190-200 | of all answers to a challenge exactly the one under the record's own keys is consent |
| `Producers.EnrollmentIsSigned` | pkg/storage/producers.go:221-264 | a valid enrollment was signed by the operator's keys of its epoch, in both halves if it names a quantum key |
| `Producers.EnrollmentIsNotTransferable` | pkg/storage/producers.go:221-264 | an operator's signature valid on two records was given for the same terms, in both halves |
| `Producers.TermsReadBack` | pkg/storage/producers.go:92-190 | the terms can be read from what the operator signs, and terms and nonce from what the producer signs |
| `GroupCanonical.WriteGroup` | pkg/threshold/group.go:137-166 | sorting a copy and growing the buffer gives the specified encoding |
| `GroupCanonical.CanonicalEqualIff` | pkg/threshold/group.go:137-166 | valid groups have equal bytes if and only if they match on the encoded fields up to member order |
| `GroupCanonical.GroupReadBack` | pkg/threshold/group.go:137-166 | every digested field can be read from the bytes, and the members come in the order of their IDs |
| `Threshold.Validate` | pkg/threshold/group.go:79-115 | accepts exactly the groups with version 1, an origin, a threshold within range, non-empty distinct IDs and distinct 32-byte keys |
| `Threshold.MemberById` | pkg/threshold/group.go:179-186 | finds a member with the ID, or there is none |
| `Threshold.CheckSig` | pkg/threshold/multisig.go:80-129 | one list element counts exactly when its member is listed and every required half verifies under the listed keys |
| `Threshold.VerifyMulti` | pkg/threshold/multisig.go:66-142 | accepts exactly when the group is valid and at least a threshold of its members signed the message, each under its listed key and, where one is listed, its quantum key |
| `Threshold.AcceptedIff` | pkg/threshold/multisig.go:66-142 | the IDs counted are as many as the members whose own signatures are in the list |
| `Threshold.FewSignersRefused` | pkg/threshold/multisig.go:66-142 | if fewer than a threshold of the listed keys, or none, ever signed the message, every list for it is refused |
| `Threshold.OwnSigsAcceptedIff` | pkg/threshold/cosigner.go:168-185 | what members of a valid group send back when they sign is accepted exactly when there are enough of them |
| `Threshold.OnlyCountingSigsMatter` | pkg/threshold/multisig.go:66-142 | order, repetition and non-counting signatures never change the signer set or the decision |
| `Threshold.AcceptedListsOverlap` | pkg/threshold/multisig.go:66-142 | two accepted lists, for any two messages, share at least 2t - N signers |
| `LogEntry.WriteEntry` | pkg/logentry/entry.go:54-82 | the encoder writes the specified field run, with the zero hash for an absent predecessor |
| `LogEntry.EntryChain` | pkg/verify/verify.go:95-110 | accepts exactly the non-empty lists in which every entry verifies and follows the one before |
| `LogEntry.VerifiedChainIff` | pkg/logentry/entry.go:97-138 | a chain is verified exactly when every entry has the hashes of its bytes, holds an envelope signed by the envelope's own keys, and stands at its index on the hash of the one before |
| `LogEntry.EntryReadBack` | pkg/logentry/entry.go:54-82 | every hashed field can be read from the hashed bytes |
| `LogEntry.ChainIsFirstSegment` | pkg/verify/verify.go:90-94 | of the contiguous parts of a chain it is documented to accept, the code accepts exactly those that start at index 0 |
| `LogEntry.TailRefused` | pkg/verify/verify.go:95-110 | every proper tail of a verified chain is such a part, and is refused |
| `LogEntry.ChainIndex` | pkg/logentry/entry.go:120-138 | in a verified list every entry's index is its position |
| `LogEntry.HashFixesEntry` | pkg/logentry/entry.go:97-116 | equal entry hashes mean equal index, time, predecessor, honeypot flag, leaf hash and signed envelope fields |
| `LogEntry.HeadCommits` | pkg/verify/verify.go:95-110 | two accepted lists with the same last entry hash have the same length and the same entries |
| `Anchors.CheckInclusion` | pkg/verify/verify.go:74-82 | accepts exactly a self-verifying entry inside the tree with an accepted inclusion proof |
| `Anchors.IncludedIsLogged` | pkg/verify/verify.go:74-82 | an entry accepted against the root of a log agrees with that log's entry at its index on everything under the leaf hash |
| `Storage.KeyOrder` | pkg/storage/storage.go:489-515 | within a prefix, keys are ordered and distinct exactly as their numbers are |
| `Storage.SeekIsNext` | pkg/storage/storage.go:383-384 | seeking a key among the entry keys in byte order is finding the next index, both ways |
| `Storage.KeyspacesDisjoint` | pkg/storage/storage.go:138-145 | entries, leaves, replay rows and the meta keys never share a key |
| `Storage.ReplayKeyInjective` | pkg/storage/replay.go:26-32 | different envelope hashes have different replay keys |
| `Storage.Store.AppendEntry` | pkg/storage/storage.go:258-304 | for any entry: succeeds exactly for a sealed entry at the current size on the current head with a free key, writes entry, leaf, size and head together, and otherwise changes nothing |
| `Storage.TakenIff` | pkg/storage/storage.go:258-304 | on a log the store holds, it takes a sealed entry exactly when the entry continues the verified chain |
| `Storage.Store.AppendVerified` | pkg/storage/storage.go:258-304 | an entry that verifies and follows the last one always fits, and the store then holds the longer verified log |
| `Storage.Store.GetEntry` | pkg/storage/storage.go:307-327 | returns what is under that key; for a table that holds a log, its entry at that index, and nothing beyond its end |
| `Storage.Store.DeleteLeafHash` | pkg/storage/storage.go:368-372 | removes one mirrored leaf, and a mirror that agreed with the log still does |
| `Storage.Store.CheckAndRecordEnvelope` | pkg/storage/replay.go:43-66 | a known hash is answered with its first index and nothing changes; an unknown one is recorded |
| `Storage.Store.Seek` | pkg/storage/storage.go:377-402 | the next entry visited is the one with the least key at or above the position, or there is none |
| `Storage.Store.RegisterProducer` | pkg/storage/producers.go:291-308 | stores exactly records with an ID and a 32-byte key |
| `Storage.Store.RevokeProducer` | pkg/storage/producers.go:359-379 | marks exactly a record that is there, and keeps the rest of it |
| `CoreLog.NewEntryFits` | pkg/logentry/entry.go:144-158 | a freshly made entry verifies and follows the head it was made for |
| `CoreLog.NoEnvelopeTwice` | pkg/core/log.go:270-282 | while the replay table points each stored envelope at its own index, no two entries have the same envelope hash or the same signed fields |
| `CoreLog.RowNamesEntryIff` | pkg/storage/replay.go:15-17 | while the replay table agrees with the log, a row leads to an entry with that envelope exactly when the log has one |
| `CoreLog.Log.CheckProducer` | pkg/core/log.go:216-268 | passes exactly a verified envelope of a registered, unrevoked producer under the registered keys, with a valid unexpired enrollment when required |
| `CoreLog.AdmittedIff` | pkg/core/log.go:216-268 | admitted is exactly what the registered keys signed, from an unrevoked record, under unexpired terms signed by the operator's keys of the record's epoch where enrollment is required |
| `CoreLog.Log.Append` | pkg/core/log.go:205-303 | on whatever files it was started from: says exactly when it appends, rejects, reports a duplicate or fails, and exactly what each outcome leaves in store, tree, head and replay table; a log in which these agree stays one |
| `CoreLog.StepKeepsInStep` | pkg/core/log.go:270-303 | every outcome of an append leaves size, head, entries and replay table in agreement, and a log in agreement never fails because the entry does not fit |
| `CoreLog.Log.Snapshot` | pkg/core/log.go:637-645 | size and root belong to the log in memory and the head to the store; for a log in agreement all three belong to one log |
| `CoreLog.RetryAfterFailure` | pkg/core/log.go:191-193 | a failed append does not always leave the disk unchanged: its replay row stays, and the retry is refused as a replay of an entry that does not exist |
| `CoreLog.RefusalNamesOther` | pkg/storage/replay.go:15-17 | once another envelope has taken the index of a failed append, the retry is refused in the name of an entry with a different envelope |
| `LogReplay.Replay` | pkg/core/log.go:131-165 | whatever the mirror holds, accepts exactly an entry table whose scan is a verified chain with accessible leaves, fills in missing or empty leaves and builds the tree; leaf reads are right exactly if the leaf cap is 0 or every non-empty mirrored leaf agreed with its entry |
| `LogReplay.ScannedTableIff` | pkg/core/log.go:131-165 | a verified scan is the entry table exactly when every entry is stored under its own index |
| `AlteredFiles.ServeAltered` | pkg/core/log.go:127-153 | for every altered mirrored leaf and every positive cap: the start succeeds, and after any appends that push that leaf out of memory the proof served for its sibling is not the audit path of the log |
| `AlteredFiles.ServeTruncated` | pkg/core/log.go:102-125 | with the last entry removed and size and head left, the start succeeds, the snapshot has size and root of the shorter log and the head of the longer one, and every later append fails |
| `AlteredFiles.AppendsFail` | pkg/core/log.go:284-303 | with a stored size other than the tree's, every append fails and the entries stay as they are |
| `LogReplay.Open` | pkg/core/log.go:105-125 | on any files: opens exactly when the replay succeeds; the opened log is in agreement exactly if keys, size, head and replay table agree with the scan, and its leaf reads are right exactly under the condition of the replay |
| `LogRuns.RunLog` | pkg/core/log.go:105-303 | over any run of appends, registrations, revocations, lost leaves, proof requests, snapshots and restarts with failures anywhere, the store holds one verified log that only grows, the replay table is exactly the one the outcomes say, an envelope is refused exactly unless it is the registered producer's own at that moment, and, if the mirror agreed at the start or every start has leaf cap 0, every answer and snapshot is that of a tree without caches over the log of that moment, or names a leaf whose read failed or that was lost |
| `LogRuns.EveryEntryWasSent` | pkg/core/log.go:205-303 | every entry a run appends was signed by the key, and the quantum key if there is one, registered for its producer at that moment, the record unrevoked and, where required, enrolled and unexpired |
| `LogRuns.RunInclusionVerifies` | pkg/core/log.go:105-303 | an inclusion proof answered in such a run is accepted against the root of every snapshot of that size taken in the run, for the entry of that index |
| `LogRuns.RunConsistencyVerifies` | pkg/core/log.go:105-303 | a consistency proof answered in such a run is accepted between the roots of every two snapshots of those sizes |
| `Mirroring.OpenMirror` | pkg/mirror/mirror.go:78-107 | on any store: opens exactly unless there is no upstream or the size or the tail entry cannot be read, and picks up at the stored tail; the mirror is in order exactly if the store holds a verified log |
| `Mirroring.Mirror.AcceptEntry` | pkg/mirror/mirror.go:167-181 | takes exactly an entry that verifies and follows the last one, if it can be stored; the store stays a verified chain from index 0 |
| `Mirroring.Mirror.AcceptPage` | pkg/mirror/mirror.go:155-159 | a page is taken as a whole exactly when it verifies as the continuation of the log and can be stored, and otherwise up to some entry of it |
| `Mirroring.Mirror.SyncOnce` | pkg/mirror/mirror.go:134-164 | whatever the upstream answers, the store stays a verified chain and only grows; it succeeds exactly when there is nothing new or every page comes, verifies and can be stored, and then the log has grown by exactly those pages |
| `Mirroring.HonestSync` | pkg/mirror/mirror.go:134-164 | what an honest upstream serves is always acceptable and leaves the mirror with the upstream's log up to the size asked for |
| `Mirroring.SameHeadSameLog` | pkg/mirror/mirror.go:134-181 | a mirror with the operator's head holds the operator's log, entry by entry and leaf by leaf |
| `KeyChain.CertTextDetermines` | pkg/fwdsec/fwdsec.go:84-96 | the signed text of a certificate determines every field of it, whatever the group digest contains; an absent group reads like one called none |
| `KeyChain.CheckCert` | pkg/fwdsec/fwdsec.go:111-149 | one certificate passes exactly by its own signatures or by the group whose digest it names |
| `KeyChain.VerifyChain` | pkg/fwdsec/fwdsec.go:225-283 | accepts exactly the chains in which every certificate verifies and continues its predecessor from the trusted root |
| `KeyChain.ChainVerifiesIff` | pkg/fwdsec/fwdsec.go:111-283 | an accepted chain is one in which every key was signed for by the keys before it, in both halves where hybrid, or by enough members of the named group, from the root on, under consecutive numbers and times that do not go back |
| `KeyChain.AcceptedKeyAt` | pkg/fwdsec/fwdsec.go:188-207 | in an accepted chain of any length, looking up an epoch finds the keys of the certificate at that position, and nothing beyond the end |
| `KeyChain.CertReadBack` | pkg/fwdsec/fwdsec.go:84-96 | every field of a certificate can be read from its text |
| `KeyChain.AcceptedNumbered` | pkg/fwdsec/fwdsec.go:188-195 | in an accepted chain epochs are exactly 0..n, the lookup finds each epoch's key, and epoch 0 is the root |
| `KeyChain.ChainsAgree` | pkg/fwdsec/fwdsec.go:225-283 | two chains accepted under one root, whose keys each signed one successor, agree on epochs, keys and start times as far as both go |
| `KeyChain.PublishedKeyStable` | pkg/fwdsec/fwdsec.go:188-206 | a published epoch key never changes when the chain grows |
| `KeyChain.NumberedKey` | pkg/fwdsec/fwdsec.go:188-206 | with epochs 0..n, looking up an epoch finds that epoch's key |
| `KeyChain.LinkedVerifiesIff` | pkg/fwdsec/fwdsec.go:225-283 | a chain the signer builds verifies if and only if its start times do not go back |
| `KeyChain.NextLinked` | pkg/fwdsec/fwdsec.go:443-492 | a rotation certificate links to the chain it extends, classical or hybrid |
| `KeyChain.BackwardClockExample` | pkg/fwdsec/fwdsec.go:263-265 | with a clock that went back the signer's own chain is refused, shown on two certificates |
| `KeyStore.LiveKey.Sign` | pkg/fwdsec/keystore.go:237-242 | a live key's signature verifies under its public key, and a destroyed key gives none |
| `KeyStore.LiveKey.QuantumSign` | pkg/fwdsec/keystore.go:246-253 | the same for the quantum half, which only a hybrid key has |
| `KeyStore.LiveKey.Destroy` | pkg/fwdsec/keystore.go:273-302 | the key is gone from memory whatever fails and only its own file is touched; if the file can be looked at it is gone exactly when removal works, scrambled exactly when the overwrite touched it, and the call succeeds exactly when every step does; if it cannot, the file stays as it is and the call succeeds |
| `KeyStore.GoneStaysGone` | pkg/fwdsec/keystore.go:273-302 | along a traced history a published key that can no longer be read never becomes readable again |
| `KeyStore.GrownSettled` | pkg/fwdsec/fwdsec.go:525-528 | after a rotation the readable past epochs are those before it and, exactly when its file was not erased, the one just left |
| `KeyStore.Generate` | pkg/fwdsec/keystore.go:114-145 | a new key is on disk under its own name when the call succeeds, what a failing write leaves there is exact, and nothing else changed at any point |
| `KeyStore.Load` | pkg/fwdsec/keystore.go:149-171 | opens exactly an existing, intact key file and yields the key in it |
| `Fwdsec.Signer.Sign` | pkg/fwdsec/fwdsec.go:427-438 | a signature comes with the epoch whose published key verifies it, and there is one exactly while the active key lives |
| `Fwdsec.Signer.QuantumSign` | pkg/fwdsec/fwdsec.go:599-606 | the same for the quantum half |
| `Fwdsec.Signer.Rotate` | pkg/fwdsec/fwdsec.go:443-530 | the chain grows by the next certificate exactly when signing and writing succeed; every disk state on the way can be recovered from; only a failed destruction leaves a grown chain without a live key; on success the old key file is gone exactly when it could be looked at; the old epoch stays readable exactly when nothing overwrote or removed its file; and some state on the way holds both the old and the new key |
| `Fwdsec.CreateGenesis` | pkg/fwdsec/fwdsec.go:357-395 | a first chain with a self-signed certificate, or no chain at all |
| `Fwdsec.LoadActive` | pkg/fwdsec/fwdsec.go:399-424 | opens exactly files that fit together, and always a recoverable disk; a key that does not match the chain is destroyed, and otherwise nothing on disk changes |
| `Fwdsec.Open` | pkg/fwdsec/fwdsec.go:336-351 | from any state a crash can leave, opening succeeds exactly unless a call fails, and continues the chain on disk |
| `Fwdsec.RunSigner` | pkg/fwdsec/fwdsec.go:336-530 | over any mix of rotations, failures and crashes every disk state is recoverable, published certificates stay, and with a clock that does not go back the chain verifies; if no key is drawn twice, in every state only the last two epochs and the spared ones can be read, none comes back, at the end exactly the last and the spared ones can be read, and nothing is spared if every destruction erases |
| `Checkpoints.TextDetermines` | pkg/checkpoint/checkpoint.go:109-128 | equal signed texts, whatever follows them, agree on origin, size, root, head, time and epoch if and only if they agree on the origin |
| `Checkpoints.OneLineTextDetermines` | pkg/checkpoint/checkpoint.go:109-128 | with single-line origins the text determines all of these |
| `Checkpoints.BeaconTextInjective` | pkg/checkpoint/checkpoint.go:109-128 | a beacon's line determines the beacon, the absent one included |
| `Checkpoints.OperatorTextDetermines` | pkg/checkpoint/checkpoint.go:109-128 | for one origin it determines the group given the beacon, whatever the group digest contains, and source, round and value of the beacon when the sources have no line break |
| `Checkpoints.BrokenOriginAmbiguous` | pkg/checkpoint/checkpoint.go:109-128 | an origin with a line break makes the text ambiguous, shown on checkpoints of different sizes |
| `Checkpoints.WitnessTextDetermines` | pkg/checkpoint/checkpoint.go:133-140 | what a witness signs determines origin, size and root |
| `Checkpoints.WitnessTextBinds` | pkg/checkpoint/checkpoint.go:133-140 | it also fixes the operator's signature, when the free text fits on a line |
| `Checkpoints.CheckpointReadBack` | pkg/checkpoint/checkpoint.go:109-128 | every field can be read from the signed text line by line, when the free text fits on a line |
| `Checkpoints.Verify` | pkg/checkpoint/checkpoint.go:256-308 | accepts exactly by the named group's threshold, or by the epoch key of a verified chain with both halves where the chain is hybrid |
| `Checkpoints.OperatorSignedIff` | pkg/checkpoint/checkpoint.go:256-308 | a checkpoint is accepted exactly when enough members of the group it names signed its text, or the keys its epoch has in a chain accepted from the root did, in both halves where the epoch is hybrid |
| `Checkpoints.OperatorSignatureBinds` | pkg/checkpoint/checkpoint.go:256-308 | one operator signature accepted on two checkpoints vouches for one size, root, head, time and epoch exactly if they have one origin |
| `CheckpointSigner.SignCheckpoint` | pkg/checkpoint/checkpoint.go:191-228 | what the operator signs is accepted under its published chain exactly while no rotation's clock went back, and there is a checkpoint exactly while the active key lives |
| `CheckpointSigner.SignedAcrossRotationsIff` | pkg/checkpoint/checkpoint.go:191-228 | with rotations between the lock acquisitions of one call, the checkpoint is accepted exactly if the times are in order and the keys used are those of the epoch it names |
| `Checkpoints.VerifyWitnesses` | pkg/checkpoint/checkpoint.go:339-373 | counts exactly the list elements that are trusted witnesses' own signatures on the witness text, in both halves where a quantum key is trusted |
| `Checkpoints.CountsDistinctIff` | pkg/checkpoint/checkpoint.go:339-373 | that count is the number of distinct witnesses if and only if no witness ID counts twice |
| `Checkpoints.RepeatedWitnessCountsTwice` | pkg/verify/verify.go:39-41 | a witness listed twice is counted twice |
| `Anchors.CheckCheckpoint` | pkg/verify/verify.go:48-69 | accepts exactly an operator-signed checkpoint of the expected origin with enough countersignatures |
| `Anchors.CheckpointAcceptedIff` | pkg/verify/verify.go:48-69 | accepted is exactly a checkpoint of the origin that the group or the keys of its epoch signed, with as many trusted witnesses' own signatures as asked for |
| `Anchors.AnchorChain` | pkg/verify/verify.go:123-159 | accepts exactly the non-empty record lists in which every checkpoint is accepted and each follows the one before consistently |
| `Anchors.AnchorsArePrefixes` | pkg/verify/verify.go:123-159 | if the last root is that of a leaf list, every non-empty record's root is that of a prefix of it, exactly when every proof starts from a 32-byte node |
| `Anchors.OwnAnchorsAccepted` | pkg/verify/verify.go:123-159 | checkpoints of one growing log, with the consistency proofs of its own tree, are accepted exactly when each checkpoint is |
| `WitnessServer.WriteStatement` | pkg/witness/signed_seen.go:42-58 | the header and the sizes in increasing order, as specified |
| `Witnessing.StatementTextDetermines` | pkg/witness/signed_seen.go:42-58 | a statement's text determines the witness, origin, time, key and every size and root in it |
| `Witnessing.TextsApart` | pkg/witness/cross_attestation.go:61-78 | a statement or a cross-attestation is never the text of a countersignature |
| `WitnessServer.FindContradiction` | pkg/witness/signed_seen.go:169-176 | in whatever order the map is walked, a differing size is found exactly when there is one |
| `WitnessServer.FindOverlap` | pkg/witness/cross_attestation.go:101-106 | in whatever order the map is walked, the overlap is exactly the sizes at which both views have the same root |
| `Witnessing.CrossTextDetermines` | pkg/witness/cross_attestation.go:62-80 | the signed text of a cross-attestation determines every field of it, when names and roots fit on a line |
| `WitnessServer.CheckReply` | pkg/witness/gossip.go:88-103 | a reply passes exactly if it verifies under the peer's own key and name |
| `WitnessServer.Server.constructor` | pkg/witness/witness.go:116-157 | memory is what the files say, the checkpoints and the attestation history included, and files whose evidence is sound make a server whose evidence is |
| `WitnessServer.Server.RecordFork` | pkg/witness/witness.go:602-612 | flag and evidence are set in memory, and on disk exactly when the save works |
| `WitnessServer.Server.CheckPresentable` | pkg/witness/witness.go:453-468 | passes exactly an unflagged, watched origin's checkpoint that the operator signed |
| `WitnessServer.Server.SignatureOn` | pkg/witness/witness.go:496-512 | the countersignature verifies under the witness's key, and its quantum half under the quantum key |
| `WitnessServer.Server.Cosign` | pkg/witness/witness.go:449-514 | is one step of the protocol, returns a signature exactly when that step countersigned, and on a conflict holds exactly the remembered checkpoint and the one shown as evidence, on disk exactly when the save works |
| `WitnessServer.Server.AddOperator` | pkg/witness/witness.go:410-418 | is one step of the protocol; reports success exactly for a valid descriptor that was saved |
| `WitnessServer.Server.ClearFork` | pkg/witness/witness.go:594-599 | is one step of the protocol |
| `WitnessServer.Server.IssueSignedSeen` | pkg/witness/signed_seen.go:76-95 | is one step of the protocol, and the statement is the memory's view of the origin, signed |
| `WitnessServer.Server.RecordAttestation` | pkg/witness/signed_seen.go:128-162 | flags the origin exactly when the peer contradicts its last statement, then keeps the new one and appends it to the history, on disk exactly when the save works |
| `WitnessServer.Server.CompareWithPeer` | pkg/witness/witness.go:617-645 | records a fork exactly when the two views differ at a common size, with that size, what is remembered for it and what the peer sent as evidence, on disk exactly when the save works; a remembered side has another root than the peer states |
| `WitnessServer.Server.CrossAttest` | pkg/witness/cross_attestation.go:96-133 | signs and keeps exactly the agreeing sizes, if there are any, and they are on disk exactly when the save works |
| `WitnessServer.Server.GossipOne` | pkg/witness/gossip.go:81-138 | a reply that is not the trusted peer's own changes nothing; any other is recorded, then compared under the origin asked for, then confirmed under the origin it states, exactly if the comparison found no fork and some size agrees; the confirmation covers every common size exactly if the two views do not contradict each other there |
| `WitnessServer.RunServer` | pkg/witness/witness.go:116-645 | any calls with saves failing and restarts anywhere are a run of the protocol, so no two roots are ever countersigned for one origin and size; if peers have names, evidence in memory and on disk always holds signed checkpoints of that origin and size, two with different roots when it names no peer |
| `WitnessServer.OwnSignatureCounts` | pkg/witness/witness.go:496-512 | what a server signs is counted by a client that trusts its keys |
| `Witnessing.KeptIsStated` | pkg/witness/signed_seen.go:128-162 | over any run, every statement kept for a peer and an origin is that peer's own about it, signed by the one key the peer is heard under |
| `Witnessing.HearingProves` | pkg/witness/signed_seen.go:128-162 | an origin flagged by hearing a peer is flagged on proof: two statements signed by the peer's one key with different roots for one size |
| `Witnessing.ContradictionFlagged` | pkg/witness/signed_seen.go:128-162 | a peer that contradicts its last statement gets the origin flagged, whatever happened in between, a restart included if that statement was saved |
| `Witnessing.StatementReadBack` | pkg/witness/signed_seen.go:42-58 | every field of a statement, each size and root included, can be read from its text |
| `Witnessing.CrossReadBack` | pkg/witness/cross_attestation.go:61-80 | the same for cross-attestations |
| `Witnessing.StepKeepsInv` | pkg/witness/witness.go:470-499 | every step keeps memory in line with the files and every signed root on disk |
| `Witnessing.NoDoubleCosign` | pkg/witness/witness.go:449-514 | over any run with failed saves, crashes, cleared forks and gossip, a witness never signs two roots for one origin and size |
| `Mesh.ForkDetected` | pkg/witness/gossip.go:81-139 | if two witnesses signed different roots at one size, hearing and comparing the other's statement flags the origin, whatever happens in between |
| `Mesh.StepKeepsFlag` | pkg/witness/witness.go:594-612 | no step but clearing removes a flag; a restart keeps it exactly when it is on disk |
| `Mesh.FlagLatches` | pkg/witness/witness.go:453-455 | until it is cleared, a flagged origin gets no countersignature |
| `Mesh.UnsavedFlagLostIff` | pkg/witness/witness.go:602-612 | after a restart a flagged origin gets a new countersignature exactly when the flag never reached the disk and the files know the operator and no other root of that size |
| `Mesh.StepStaysTrue` | pkg/witness/signed_seen.go:128-176 | with true checkpoints and true statements, a step of a witness flags nothing and adds nothing untrue |
| `Mesh.NoFalseAlarms` | pkg/core/log.go:634-645 | with one append-only log per origin, no interleaving of appends, readings, signings, countersignatures, failed saves, restarts and gossip records a fork |
| `Mesh.MisroutedReplyFlagsIff` | pkg/witness/gossip.go:81-111 | between true views a comparison flags exactly when the views differ at a common size, and then the reply was about another origin |
| `Mesh.MisroutedReplyExample` | pkg/witness/gossip.go:81-111 | two healthy one-entry logs and a reply about the wrong one raise the alarm |
| `Quorum.CosignedMeans` | pkg/witness/witness.go:496-499 | a countersignature's text under a witness's key comes from a checkpoint that witness accepted, with that origin, size and root |
| `Quorum.QuorumAgreement` | pkg/checkpoint/checkpoint.go:339-373 | with M trusted witnesses, at most f dishonest and 2N > M + f, two checkpoints of one origin and size with N distinct countersigners each have the same root |
| `Quorum.AcceptedCheckpointsAgree` | pkg/verify/verify.go:48-69 | two checkpoints one verifier accepts at one size have the same root, when each witness is listed once |
| `Enrollment.StepKeepsOnce` | pkg/core/log.go:478-531 | in any interleaving a challenge is pending, in one confirmation, or confirmed once, and never two of these |
| `Enrollment.SignedVerifies` | pkg/storage/producers.go:221-264 | a record signed by the active epoch's key verifies against the chain, classical or hybrid, when its terms name that epoch |
| `Enrollment.ActiveSignedVerifiesIff` | pkg/core/log.go:518-524 | a quantum half made by the active key verifies exactly when that key is the one published for the record's epoch |
| `Enrollment.VouchedStable` | pkg/storage/producers.go:221-264 | growing the chain changes no verdict on a record whose epoch is published |
| `Enrollment.CeremonySound` | pkg/core/log.go:408-531 | over any interleaving of ceremonies, rotations and restarts, with a classical or hybrid operator, each challenge confirms at most once and every persisted record carries valid consent; its enrollment is valid under the current chain exactly if it has no quantum half or the epoch active at that signing has the key of the record's epoch |
| `Enrollment.ConsentedIff` | pkg/core/log.go:478-505 | a confirmation carries consent exactly with the signatures of the keys in the pending record on its challenge, the quantum one too if a quantum key is registered |
| `Enrollment.LateNeverConfirms` | pkg/core/log.go:478-531 | an answer after the deadline uses the challenge up: nothing that happens later confirms it |
| `Enrollment.RestartForgets` | pkg/core/log.go:105-125 | open challenges are kept in memory only, so after a restart none of them is ever confirmed |
| `Enrollment.NoQuantumHalf` | pkg/core/log.go:408-531 | with a classical operator or a classical producer every persisted record passes both checks |
| `Enrollment.RotatedBetween` | pkg/core/log.go:507-524 | a rotation between the two signatures of a hybrid operator leaves a persisted record whose enrollment verifies only if the two epochs share a quantum key |
| `Enrollment.PersistedForever` | pkg/core/log.go:478-531 | a persisted record stays, and the verdict on it is the same after all later rotations |
| `Enrollment.UninterruptedConfirm` | pkg/core/log.go:478-531 | run without interruption, the regions of a confirmation use up the challenge and persist the record, signed in both halves where both are hybrid, exactly when every check passes |
| `Enrollment.CompletedVouched` | pkg/core/log.go:507-524 | such a record is a valid enrollment, and consent is untouched by the operator's signatures |
| `EnrollmentDesk.Desk.BeginEnrollment` | pkg/core/log.go:408-468 | stores nothing durable; the pending record and the returned bytes are those of the request at the active epoch |
| `EnrollmentDesk.Desk.ConfirmEnrollment` | pkg/core/log.go:478-531 | uses up the challenge whatever happens; a record is stored exactly in time, under the active epoch, with the producer's own signatures on the challenge, and then carries them and the operator's on the pending terms |
| `EnrollmentDesk.Desk.IssueEnrollment` | pkg/core/log.go:339-391 | stores a record that is a valid enrollment, in both halves where both are hybrid, and claims no consent |

## Left out

- Network, daemons, command line, JSON and base64 formats, metrics and tracing: plumbing around the modelled calls.
- Ed25519, Dilithium3, SHA-256, BadgerDB and the operating system's file calls: foreign code, represented as described above.
- The Merkle library's own verifiers: not part of the source; the repository's reference loops stand for them.
- Anchors.AnchorChain: uses the reference consistency loop for the library call, which may check more.
- Replay expiry: the table is modelled without a time to live, so rows are never dropped.
- Storage.Store.AppendEntry: read errors on the size and head keys are folded into the failure of the transaction.
- CoreLog.Log.Append: bounded by 2^63 entries, like the tree.
- Mirroring.Mirror.SyncOnce: takes the upstream size as an unbounded number, so the wrap-around of the position near 2^64 is not modelled; a page beyond 2^63 entries is refused.
- Fwdsec.Signer.Rotate: single-signature rotation only; certificates signed by a group are verified (`KeyChain.VerifyChain`) but not issued, because issuing depends on network replies.
- Fwdsec.RunSigner: one fixed mode, classical or hybrid, for the whole run; switching a classical store to hybrid is not modelled. A crash inside a call is one of the disk states recorded on the way; a run goes on from the states calls end in, where a failing call stands for a crash before it.
- KeyStore.Generate: file names are drawn from an unbounded supply of unused names; the original draws time and a random suffix.
- Mesh.NoFalseAlarms: replies to gossip requests are statements witnesses of the mesh made, for the origin asked for.
- Mesh.ForkDetected: the reading of the witness's own map in a comparison is one atomic step; the original iterates over it after releasing the lock.
- WitnessServer.RunServer: the claim about evidence is for peers with a name, which registering a peer asks for; the checkpoint a peer sends along is not checked by the original, so nothing is claimed for it.
- Quorum.AcceptedCheckpointsAgree: one countersignature per witness ID is a hypothesis, because the count does not ensure it.
- Enrollment.CeremonySound: fresh challenge IDs, as the random source supplies them.
- EnrollmentDesk.Desk.IssueEnrollment: one call at a time; interleaved with a rotation it has the two-call gap that is shown for confirmations.
- EnrollmentDesk.Desk.ConfirmEnrollment: the sweep that evicts expired challenges is not modelled; an expired challenge is refused when it is used.
- CheckpointSigner.SignCheckpoint: single-signature mode; the member signatures of a group come over the network.
- Peer registration, listing of cross-attestations, admin and read journals, rate limits, honeypot alerts, clock-skew checks, trust DNS and PDF rendering: single lookups, updates and layouts, without state that spans calls.
- Key material protection in memory and PKCS#11 stores: not visible in values.
