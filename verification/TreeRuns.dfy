/** Whole runs of the tree: what its caches hold never shows in what it answers. */
module TreeRuns {
  import opened Encoding
  import opened Hashing
  import opened Inclusion
  import opened Consistency
  import opened LruCache
  import opened MerkleTree

  datatype Request =
    | AppendLeaf(leaf: Digest)
    | InclusionOf(idx: nat, size: nat)
    | ConsistencyOf(oldSize: nat, newSize: nat)

  /** `Unreadable` names the leaf whose read failed. */
  datatype Answer = Appended(idx: nat) | Proof(hashes: seq<Bytes>) | Refused | Unreadable(leaf: nat)

  /** The leaves after the first `k` requests. */
  ghost function LeavesAfter(requests: seq<Request>, k: nat): (leaves: seq<Digest>)
    requires k <= |requests|
    ensures |leaves| <= k
  {
    if k == 0 then []
    else
      var before := LeavesAfter(requests, k - 1);
      if requests[k - 1].AppendLeaf? then before + [requests[k - 1].leaf] else before
  }

  /** What a tree without caches answers. */
  ghost function Expected(sha: Hasher, leaves: seq<Digest>, request: Request): Answer
  {
    match request
    case AppendLeaf(_) => Appended(|leaves|)
    case InclusionOf(idx, size) =>
      if size > |leaves| || idx >= size then Refused else Proof(AuditPath(sha, leaves, idx, 0, size))
    case ConsistencyOf(oldSize, newSize) =>
      if oldSize > newSize || newSize > |leaves| then Refused
      else if oldSize == 0 || oldSize == newSize then Proof([])
      else Proof(SubProof(sha, leaves, oldSize, 0, newSize, true))
  }

  /** The expected answer, or the name of a leaf of the tree that cannot be read; appends and refusals
      read nothing. */
  ghost predicate AnswerRight(sha: Hasher, leaves: seq<Digest>, request: Request, unreadable: set<nat>, answer: Answer)
  {
    || answer == Expected(sha, leaves, request)
    || (answer.Unreadable? && answer.leaf in unreadable && answer.leaf < |leaves|
        && Expected(sha, leaves, request).Proof?)
  }

  function AnswerOf(r: Result<seq<Bytes>>): Answer
  {
    match r
    case Ok(hashes) => Proof(hashes)
    case Err(OutOfRange) => Refused
    case Err(e) => Unreadable(e.idx)
  }

  /** A durable store does not hold another value for a leaf that is appended. */
  ghost predicate Persisted(store: LeafStore, n: nat, request: Request)
    reads store
  {
    store.durable && request.AppendLeaf? && Stored(store.leaves, n) ==> store.leaves[n] == request.leaf
  }

  /** One request to a tree; `broken` are the leaves whose reads fail meanwhile. If leaf reads are right,
      they stay so and so is the answer. */
  method AnswerOne(tree: Tree, request: Request, broken: set<nat>) returns (answer: Answer)
    requires tree.Built() && (request.AppendLeaf? ==> |tree.leaves| < TWO_TO_63)
    modifies tree, tree.rng, tree.Caches()
    ensures tree.Built() && fresh(tree.Caches() - old(tree.Caches()))
    ensures tree.leaves == if request.AppendLeaf? then old(tree.leaves) + [request.leaf] else old(tree.leaves)
    ensures !request.AppendLeaf? ==> tree.store.leaves == old(tree.store.leaves)
    ensures old(tree.Right() && Persisted(tree.store, |tree.leaves|, request)) ==> tree.Right()
    ensures old(tree.Valid() && Persisted(tree.store, |tree.leaves|, request)) ==> tree.Valid()
    ensures old(tree.Right()) ==>
              AnswerRight(tree.sha, old(tree.leaves), request, broken + old(tree.Missing()), answer)
  {
    hide Tree.Right, Tree.Resident, Tree.Built, AuditPath, SubProof;
    match request
    case AppendLeaf(leaf) =>
      var idx := tree.AppendLeafHash(leaf);
      answer := Appended(idx);
    case InclusionOf(idx, size) =>
      var r, _ := tree.InclusionProof(idx, size, broken);
      answer := AnswerOf(r);
    case ConsistencyOf(oldSize, newSize) =>
      var r := tree.ConsistencyProof(oldSize, newSize, broken);
      answer := AnswerOf(r);
  }

  /** An in-memory store misses nothing. */
  lemma NoneMissing(tree: Tree)
    requires tree.Valid() && !tree.store.durable
    ensures tree.Missing() == {}
  {
  }

  /** Every answer so far is right, given the leaves whose reads fail during each request. */
  ghost predicate AnsweredRight(sha: Hasher, requests: seq<Request>, broken: seq<set<nat>>, answers: seq<Answer>)
  {
    && |answers| <= |requests| == |broken|
    && forall i :: 0 <= i < |answers| ==> AnswerRight(sha, LeavesAfter(requests, i), requests[i], broken[i], answers[i])
  }

  lemma AnsweredNext(sha: Hasher, requests: seq<Request>, broken: seq<set<nat>>, answers: seq<Answer>, answer: Answer)
    requires AnsweredRight(sha, requests, broken, answers) && |answers| < |requests|
    requires AnswerRight(sha, LeavesAfter(requests, |answers|), requests[|answers|], broken[|answers|], answer)
    ensures AnsweredRight(sha, requests, broken, answers + [answer])
  {
    hide AnswerRight, LeavesAfter;
  }

  lemma NothingAnswered(sha: Hasher, requests: seq<Request>, broken: seq<set<nat>>)
    requires |broken| == |requests|
    ensures AnsweredRight(sha, requests, broken, [])
  {
  }

  /** A run of requests on a fresh tree over an in-memory store. */
  method AnswerOn(tree: Tree, requests: seq<Request>, broken: seq<set<nat>>) returns (answers: seq<Answer>)
    requires tree.Valid() && tree.leaves == [] && !tree.store.durable && |broken| == |requests| < TWO_TO_63
    modifies tree, tree.rng, tree.Caches()
    ensures |answers| == |requests| && AnsweredRight(tree.sha, requests, broken, answers)
  {
    hide Tree.Valid, AnswerRight, AnsweredRight;
    answers := [];
    NothingAnswered(tree.sha, requests, broken);
    for k := 0 to |requests|
      invariant tree.Valid() && fresh(tree.Caches() - old(tree.Caches())) && tree.leaves == LeavesAfter(requests, k)
      invariant |answers| == k && AnsweredRight(tree.sha, requests, broken, answers)
    {
      ValidParts(tree);
      NoneMissing(tree);
      assert broken[k] + {} == broken[k];
      var answer := AnswerOne(tree, requests[k], broken[k]);
      AnsweredNext(tree.sha, requests, broken, answers, answer);
      answers := answers + [answer];
    }
  }

  /** Any run of requests against a tree with any caps: every answer is that of a tree without caches,
      except that a proof may fail on a leaf whose read is broken just then. */
  method AnswerAll(sha: Hasher, maxInternal: nat, maxLeaf: nat, requests: seq<Request>, broken: seq<set<nat>>)
    returns (answers: seq<Answer>)
    requires |broken| == |requests| < TWO_TO_63
    ensures |answers| == |requests| && AnsweredRight(sha, requests, broken, answers)
  {
    hide Tree.Valid, Tree.Resident, AnsweredRight, Lru.Keys;
    var store := new LeafStore(false);
    var tree := new Tree(sha, maxInternal, maxLeaf, store);
    answers := AnswerOn(tree, requests, broken);
  }

  /** The in-memory store never fails a read. Then every answer is the expected one, outright, for every
      pair of caps and every interleaving. */
  method AnswerAllInMemory(sha: Hasher, maxInternal: nat, maxLeaf: nat, requests: seq<Request>)
    returns (answers: seq<Answer>)
    requires |requests| < TWO_TO_63
    ensures |answers| == |requests|
    ensures forall i :: 0 <= i < |requests| ==> answers[i] == Expected(sha, LeavesAfter(requests, i), requests[i])
  {
    var unbroken: seq<set<nat>> := seq(|requests|, _ => {});
    answers := AnswerAll(sha, maxInternal, maxLeaf, requests, unbroken);
  }
}
