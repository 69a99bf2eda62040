/** The SHA-256 function is a parameter of everything below. No function onto 32 bytes is injective,
    so a theorem that needs collision resistance asks for it only on the finite set of messages
    that the objects of that theorem hash. */
module Hashing {
  import opened Encoding

  type Hasher = Bytes -> Digest

  ghost predicate CollisionFree(sha: Hasher, messages: set<Bytes>)
  {
    forall x, y :: x in messages && y in messages && sha(x) == sha(y) ==> x == y
  }

  // Section 2.1 of RFC 6962: leaves and interior nodes are hashed under different prefixes.
  function LeafInput(data: Bytes): Bytes { [0] + data }

  function NodeInput(left: Bytes, right: Bytes): Bytes { [1] + left + right }

  function LeafHash(sha: Hasher, data: Bytes): Digest { sha(LeafInput(data)) }

  function NodeHash(sha: Hasher, left: Bytes, right: Bytes): Digest { sha(NodeInput(left, right)) }

  function EmptyRoot(sha: Hasher): Digest { sha([]) }

  /** The node prefix carries no lengths, so two node inputs agree part by part only when the
      parts are known to split at the same place. */
  lemma NodeInputSplits(l: Bytes, r: Bytes, l': Bytes, r': Bytes)
    requires NodeInput(l, r) == NodeInput(l', r')
    ensures l + r == l' + r'
    ensures |l| == |l'| ||  |r| == |r'| <==> l == l' && r == r'
  {
    assert NodeInput(l, r) == [1] + (l + r) && NodeInput(l', r') == [1] + (l' + r');
    CancelPrefix([1], l + r, l' + r');
    if |l| == |l'| || |r| == |r'| {
      assert |l + r| == |l' + r'|;
      CancelFixed(l, l', r, r');
    }
  }

  lemma NodeInputPrefix(l: Bytes, r: Bytes, r': Bytes)
    requires NodeInput(l, r) == NodeInput(l, r')
    ensures r == r'
  {
    NodeInputSplits(l, r, l, r');
  }
}

/** RFC 6962 tree hashes, in two forms: the recursive definition over leaf ranges that both
    `_rfc6962_root` and `subRoot` follow, and a level-by-level form whose nodes are addressed by
    (height, index), which is what the index-shifting verifiers walk. */
module Rfc6962 {
  import opened Encoding
  import opened Hashing

  // ---- The recursive definition ----

  /** Doubling search for the split point, from a power of two `k` below `n`. */
  function SplitFrom(k: nat, n: nat): (s: nat)
    requires 0 < k < n
    ensures 0 < s < n <= 2 * s
    decreases n - k
  {
    if 2 * k < n then SplitFrom(2 * k, n) else k
  }

  /** The largest power of two below `n`. */
  function Split(n: nat): (s: nat)
    requires n >= 2
    ensures 0 < s < n <= 2 * s
  {
    SplitFrom(1, n)
  }

  /** Root of the subtree over leaf hashes `[begin, end)`. */
  function SubRoot(sha: Hasher, hs: seq<Digest>, begin: nat, end: nat): Digest
    requires begin < end <= |hs|
    decreases end - begin
  {
    if begin + 1 == end then hs[begin]
    else
      var mid := begin + Split(end - begin);
      NodeHash(sha, SubRoot(sha, hs, begin, mid), SubRoot(sha, hs, mid, end))
  }

  /** The Merkle tree hash of a list of leaf hashes. */
  function RootOf(sha: Hasher, hs: seq<Digest>): Digest
  {
    if hs == [] then EmptyRoot(sha) else SubRoot(sha, hs, 0, |hs|)
  }

  /** A subtree root depends on its own leaves only. */
  lemma {:induction false} SubRootShift(sha: Hasher, hs: seq<Digest>, gs: seq<Digest>, begin: nat, end: nat,
                                        offset: int)
    requires begin < end <= |hs|
    requires 0 <= begin + offset && end + offset <= |gs|
    requires forall i :: begin <= i < end ==> hs[i] == gs[i + offset]
    ensures SubRoot(sha, hs, begin, end) == SubRoot(sha, gs, begin + offset, end + offset)
    decreases end - begin
  {
    if begin + 1 < end {
      var mid := begin + Split(end - begin);
      SubRootShift(sha, hs, gs, begin, mid, offset);
      SubRootShift(sha, hs, gs, mid, end, offset);
    } else {
      assert hs[begin] == gs[begin + offset];
    }
  }

  lemma SubRootPrefix(sha: Hasher, hs: seq<Digest>, gs: seq<Digest>, begin: nat, end: nat)
    requires begin < end <= |hs| && end <= |gs|
    requires hs[..end] == gs[..end]
    ensures SubRoot(sha, hs, begin, end) == SubRoot(sha, gs, begin, end)
  {
    hide SubRoot;
    forall i | begin <= i < end ensures hs[i] == gs[i + 0] {
      assert hs[i] == hs[..end][i] == gs[..end][i] == gs[i];
    }
    SubRootShift(sha, hs, gs, begin, end, 0);
  }

  function LeafHashes(sha: Hasher, leaves: seq<Bytes>): (hs: seq<Digest>)
    ensures |hs| == |leaves|
  {
    seq(|leaves|, i requires 0 <= i < |leaves| => LeafHash(sha, leaves[i]))
  }

  lemma RootSplits(sha: Hasher, leaves: seq<Bytes>, k: nat)
    requires |leaves| >= 2 && k == Split(|leaves|)
    ensures RootOf(sha, LeafHashes(sha, leaves))
         == NodeHash(sha, RootOf(sha, LeafHashes(sha, leaves[..k])), RootOf(sha, LeafHashes(sha, leaves[k..])))
  {
    hide Split;
    var n, hs := |leaves|, LeafHashes(sha, leaves);
    SubRootShift(sha, LeafHashes(sha, leaves[..k]), hs, 0, k, 0);
    SubRootShift(sha, LeafHashes(sha, leaves[k..]), hs, 0, n - k, k);
  }

  lemma SmallRootOf(sha: Hasher, leaves: seq<Bytes>)
    ensures |leaves| == 0 ==> RootOf(sha, LeafHashes(sha, leaves)) == sha([])
    ensures |leaves| == 1 ==> RootOf(sha, LeafHashes(sha, leaves)) == LeafHash(sha, leaves[0])
  {
  }

  /** `_rfc6962_root`: the reference root over raw leaves, with its doubling loop for the split. */
  method ReferenceRoot(sha: Hasher, leaves: seq<Bytes>) returns (root: Digest)
    ensures root == RootOf(sha, LeafHashes(sha, leaves))
    ensures |leaves| == 0 ==> root == sha([])
    ensures |leaves| == 1 ==> root == sha([0] + leaves[0])
    ensures |leaves| == 2 ==> root == sha([1] + sha([0] + leaves[0]) + sha([0] + leaves[1]))
    decreases |leaves|
  {
    hide RootOf, LeafHashes;
    SmallRootOf(sha, leaves);
    var n := |leaves|;
    if n == 0 {
      return sha([]);
    }
    if n == 1 {
      return LeafHash(sha, leaves[0]);
    }
    var k := 1;
    while k * 2 < n
      invariant 0 < k < n && SplitFrom(k, n) == Split(n)
      decreases n - k
    {
      k := k * 2;
    }
    var left := ReferenceRoot(sha, leaves[..k]);
    var right := ReferenceRoot(sha, leaves[k..]);
    RootSplits(sha, leaves, k);
    return NodeHash(sha, left, right);
  }

  // ---- What the root commits to ----

  /** `messages` covers everything that is hashed for the tree over raw leaves. */
  ghost predicate CoversLeaves(sha: Hasher, leaves: seq<Bytes>, messages: set<Bytes>)
    decreases |leaves|
  {
    if |leaves| == 0 then [] in messages
    else if |leaves| == 1 then LeafInput(leaves[0]) in messages
    else
      var k := Split(|leaves|);
      && CoversLeaves(sha, leaves[..k], messages) && CoversLeaves(sha, leaves[k..], messages)
      && NodeInput(RootOf(sha, LeafHashes(sha, leaves[..k])), RootOf(sha, LeafHashes(sha, leaves[k..]))) in messages
  }

  /** What is hashed last. */
  ghost function TopInput(sha: Hasher, leaves: seq<Bytes>): Bytes
  {
    if |leaves| == 0 then []
    else if |leaves| == 1 then LeafInput(leaves[0])
    else
      var k := Split(|leaves|);
      NodeInput(RootOf(sha, LeafHashes(sha, leaves[..k])), RootOf(sha, LeafHashes(sha, leaves[k..])))
  }

  lemma RootIsTop(sha: Hasher, leaves: seq<Bytes>, messages: set<Bytes>)
    requires CoversLeaves(sha, leaves, messages)
    ensures RootOf(sha, LeafHashes(sha, leaves)) == sha(TopInput(sha, leaves)) && TopInput(sha, leaves) in messages
  {
    hide RootOf, LeafHashes, Split;
    SmallRootOf(sha, leaves);
    if |leaves| >= 2 {
      RootSplits(sha, leaves, Split(|leaves|));
    }
  }

  /** The root commits to the raw leaves and to how many there are: under a hash without collisions among
      the messages of the two trees, trees with one root have the same leaves. */
  lemma {:induction false} RootCommits(sha: Hasher, a: seq<Bytes>, b: seq<Bytes>, messages: set<Bytes>)
    requires CollisionFree(sha, messages) && CoversLeaves(sha, a, messages) && CoversLeaves(sha, b, messages)
    requires RootOf(sha, LeafHashes(sha, a)) == RootOf(sha, LeafHashes(sha, b))
    ensures a == b
    decreases |a|
  {
    hide RootOf, LeafHashes, Split;
    RootIsTop(sha, a, messages);
    RootIsTop(sha, b, messages);
    assert TopInput(sha, a) == TopInput(sha, b);
    if |a| == 1 && |b| == 1 {
      CancelPrefix([0], a[0], b[0]);
    } else if |a| >= 2 && |b| >= 2 {
      var j, k := Split(|a|), Split(|b|);
      NodeInputSplits(RootOf(sha, LeafHashes(sha, a[..j])), RootOf(sha, LeafHashes(sha, a[j..])),
                      RootOf(sha, LeafHashes(sha, b[..k])), RootOf(sha, LeafHashes(sha, b[k..])));
      RootCommits(sha, a[..j], b[..k], messages);
      RootCommits(sha, a[j..], b[k..], messages);
      assert a == a[..j] + a[j..] && b == b[..k] + b[k..];
    } else {
      TopsApart(sha, a, b);
    }
  }

  /** No leaf, no leaves and several leaves are told apart by the first byte. */
  lemma TopsApart(sha: Hasher, a: seq<Bytes>, b: seq<Bytes>)
    requires TopInput(sha, a) == TopInput(sha, b)
    ensures |a| == |b| || (|a| >= 2 && |b| >= 2)
  {
    assert |a| == 1 ==> TopInput(sha, a)[0] == 0;
    assert |b| == 1 ==> TopInput(sha, b)[0] == 0;
    assert |a| >= 2 ==> TopInput(sha, a)[0] == 1;
    assert |b| >= 2 ==> TopInput(sha, b)[0] == 1;
  }

  // ---- The level-by-level form ----

  /** Number of nodes at height `h` of a tree with `n` leaves, counting a truncated right edge. */
  function Width(n: nat, h: nat): (w: nat)
    ensures n > 0 ==> w > 0
  {
    if h == 0 then n else (Width(n, h - 1) + 1) / 2
  }

  /** Number of complete nodes at height `h`: those whose whole leaf range lies inside the tree. */
  function Complete(n: nat, h: nat): (c: nat)
    ensures c <= Width(n, h) <= c + 1
  {
    if h == 0 then n else Complete(n, h - 1) / 2
  }

  /** The node at height `h`, index `i` of the tree over `hs[..n]`; a node with no right child
      passes its left child's hash up unchanged. */
  function Node(sha: Hasher, hs: seq<Digest>, n: nat, h: nat, i: nat): Digest
    requires n <= |hs| && i < Width(n, h)
    decreases h
  {
    if h == 0 then hs[i]
    else if 2 * i + 1 < Width(n, h - 1) then
      NodeHash(sha, Node(sha, hs, n, h - 1, 2 * i), Node(sha, hs, n, h - 1, 2 * i + 1))
    else Node(sha, hs, n, h - 1, 2 * i)
  }

  /** The message hashed for the parent of nodes `2i` and `2i + 1` of height `h`. */
  function ParentInput(sha: Hasher, hs: seq<Digest>, n: nat, h: nat, i: nat): Bytes
    requires n <= |hs| && 2 * i + 1 < Width(n, h)
  {
    NodeInput(Node(sha, hs, n, h, 2 * i), Node(sha, hs, n, h, 2 * i + 1))
  }

  /** `messages` covers every interior-node message of the tree over `hs[..n]`. */
  ghost predicate CoversTree(sha: Hasher, hs: seq<Digest>, n: nat, messages: set<Bytes>)
    requires n <= |hs|
  {
    forall h: nat, i: nat :: 2 * i + 1 < Width(n, h) ==> ParentInput(sha, hs, n, h, i) in messages
  }

  lemma {:induction false} CompleteMonotone(m: nat, n: nat, h: nat)
    requires m <= n
    ensures Complete(m, h) <= Complete(n, h) && Width(m, h) <= Width(n, h)
  {
    if h > 0 {
      CompleteMonotone(m, n, h - 1);
    }
  }

  /** Growing the tree never changes a complete node. */
  lemma {:induction false} CompleteNodeStable(sha: Hasher, hs: seq<Digest>, m: nat, n: nat, h: nat, i: nat)
    requires m <= n <= |hs| && i < Complete(m, h)
    ensures i < Width(m, h) && i < Width(n, h)
    ensures Node(sha, hs, m, h, i) == Node(sha, hs, n, h, i)
  {
    CompleteMonotone(m, n, h);
    if h > 0 {
      CompleteNodeStable(sha, hs, m, n, h - 1, 2 * i);
      CompleteNodeStable(sha, hs, m, n, h - 1, 2 * i + 1);
    }
  }

  // ---- The two forms agree ----

  function Pow2(h: nat): (p: nat)
    ensures p > 0
  {
    if h == 0 then 1 else 2 * Pow2(h - 1)
  }

  /** First leaf under node `i` of height `h`: `i << h`. */
  function RangeBegin(h: nat, i: nat): nat
  {
    if h == 0 then i else RangeBegin(h - 1, 2 * i)
  }

  /** End of that node's leaf range in a tree of `n` leaves. */
  function RangeEnd(n: nat, h: nat, i: nat): nat
  {
    var e := RangeBegin(h, i + 1); if e < n then e else n
  }

  lemma {:induction false} RangeLength(h: nat, i: nat)
    ensures RangeBegin(h, i + 1) == RangeBegin(h, i) + Pow2(h)
  {
    if h > 0 {
      RangeLength(h - 1, 2 * i);
      RangeLength(h - 1, 2 * i + 1);
      assert 2 * i + 1 + 1 == 2 * (i + 1);
    }
  }

  /** Index `i` exists at height `h` exactly when its first leaf does. */
  lemma {:induction false} WidthMeansRange(n: nat, h: nat, i: nat)
    ensures i < Width(n, h) <==> RangeBegin(h, i) < n
    ensures i < Complete(n, h) <==> RangeBegin(h, i + 1) <= n
  {
    if h > 0 {
      WidthMeansRange(n, h - 1, 2 * i);
      WidthMeansRange(n, h - 1, 2 * i + 1);
      assert 2 * i + 1 + 1 == 2 * (i + 1);
    }
  }

  lemma {:induction false} SplitFromIsPow2(j: nat, h: nat, n: nat)
    requires j <= h && Pow2(h) < n <= 2 * Pow2(h)
    ensures Pow2(j) <= Pow2(h) && SplitFrom(Pow2(j), n) == Pow2(h)
    decreases h - j
  {
    if j < h {
      SplitFromIsPow2(j + 1, h, n);
      assert Pow2(j + 1) == 2 * Pow2(j);
    }
  }

  /** A range longer than `2^h` and at most twice that splits after `2^h` leaves. */
  lemma SubRootJoin(sha: Hasher, hs: seq<Digest>, begin: nat, mid: nat, end: nat, h: nat)
    requires mid == begin + Pow2(h)
    requires mid < end <= begin + 2 * Pow2(h) && end <= |hs|
    ensures SubRoot(sha, hs, begin, end) == NodeHash(sha, SubRoot(sha, hs, begin, mid), SubRoot(sha, hs, mid, end))
  {
    SplitFromIsPow2(0, h, end - begin);
    assert Split(end - begin) == Pow2(h);
  }

  /** Ranges of a node and its children. */
  lemma ChildRanges(n: nat, h: nat, i: nat, begin: nat, end: nat)
    requires h > 0 && i < Width(n, h)
    requires begin == RangeBegin(h, i) && end == RangeEnd(n, h, i)
    ensures begin < end <= n
    ensures begin == RangeBegin(h - 1, 2 * i)
    ensures 2 * i + 1 < Width(n, h - 1) ==>
              var mid := begin + Pow2(h - 1);
              && mid == RangeEnd(n, h - 1, 2 * i) == RangeBegin(h - 1, 2 * i + 1)
              && mid < end <= begin + 2 * Pow2(h - 1)
              && end == RangeEnd(n, h - 1, 2 * i + 1)
    ensures 2 * i + 1 >= Width(n, h - 1) ==> end == RangeEnd(n, h - 1, 2 * i)
  {
    WidthMeansRange(n, h, i);
    WidthMeansRange(n, h - 1, 2 * i + 1);
    RangeLength(h, i);
    RangeLength(h - 1, 2 * i);
    assert 2 * i + 1 + 1 == 2 * (i + 1);
  }

  /** The level-by-level node is the recursive root of its leaf range. */
  lemma {:induction false} NodeIsSubRoot(sha: Hasher, hs: seq<Digest>, n: nat, h: nat, i: nat, begin: nat, end: nat)
    requires n <= |hs| && i < Width(n, h)
    requires begin == RangeBegin(h, i) && end == RangeEnd(n, h, i)
    ensures begin < end <= n
    ensures Node(sha, hs, n, h, i) == SubRoot(sha, hs, begin, end)
    decreases h
  {
    if h == 0 {
      assert end == begin + 1;
    } else {
      ChildRanges(n, h, i, begin, end);
      if 2 * i + 1 < Width(n, h - 1) {
        var mid := begin + Pow2(h - 1);
        NodeIsSubRoot(sha, hs, n, h - 1, 2 * i, begin, mid);
        NodeIsSubRoot(sha, hs, n, h - 1, 2 * i + 1, mid, end);
        assert Node(sha, hs, n, h, i) == NodeHash(sha, SubRoot(sha, hs, begin, mid), SubRoot(sha, hs, mid, end));
        SubRootJoin(sha, hs, begin, mid, end, h - 1);
      } else {
        NodeIsSubRoot(sha, hs, n, h - 1, 2 * i, begin, end);
        assert Node(sha, hs, n, h, i) == Node(sha, hs, n, h - 1, 2 * i);
      }
    }
  }

  lemma {:induction false} RangeBeginZero(h: nat)
    ensures RangeBegin(h, 0) == 0
  {
    if h > 0 {
      RangeBeginZero(h - 1);
    }
  }

  /** Once a single node is left, it is the root. */
  lemma TopNodeIsRoot(sha: Hasher, hs: seq<Digest>, n: nat, h: nat)
    requires 0 < n <= |hs| && Width(n, h) == 1
    ensures Node(sha, hs, n, h, 0) == SubRoot(sha, hs, 0, n)
  {
    RangeBeginZero(h);
    WidthMeansRange(n, h, 1);
    NodeIsSubRoot(sha, hs, n, h, 0, 0, n);
  }

  /** A last node without a right sibling is its own parent. */
  lemma LastEvenPassesUp(sha: Hasher, hs: seq<Digest>, m: nat, h: nat)
    requires 0 < m <= |hs| && (Width(m, h) - 1) % 2 == 0
    ensures Node(sha, hs, m, h + 1, Width(m, h + 1) - 1) == Node(sha, hs, m, h, Width(m, h) - 1)
  {
    assert Width(m, h) - 1 == 2 * (Width(m, h + 1) - 1);
  }
}
