/** The two library pieces under the tree: the compact range, a binary-counter stack of complete
    subtree roots, and the node lists of proof requests. */
module CompactRange {
  import opened Encoding
  import opened Hashing
  import opened Rfc6962

  datatype NodeId = NodeId(level: nat, index: nat)

  ghost predicate InTree(n: nat, id: NodeId) { id.index < Width(n, id.level) }

  ghost predicate CompleteIn(n: nat, id: NodeId) { id.index < Complete(n, id.level) }

  /** The hash RFC 6962 gives the node's leaf range. */
  ghost function HashOf(sha: Hasher, hs: seq<Digest>, n: nat, id: NodeId): Digest
    requires n <= |hs| && InTree(n, id)
  {
    Node(sha, hs, n, id.level, id.index)
  }

  ghost function HashesOf(sha: Hasher, hs: seq<Digest>, n: nat, ids: seq<NodeId>): (r: seq<Digest>)
    requires n <= |hs| && forall id :: id in ids ==> InTree(n, id)
    ensures |r| == |ids| && forall k :: 0 <= k < |ids| ==> r[k] == HashOf(sha, hs, n, ids[k])
  {
    if ids == [] then [] else [HashOf(sha, hs, n, ids[0])] + HashesOf(sha, hs, n, ids[1..])
  }

  lemma HashesOfAppend(sha: Hasher, hs: seq<Digest>, n: nat, a: seq<NodeId>, b: seq<NodeId>)
    requires n <= |hs| && (forall id :: id in a ==> InTree(n, id)) && (forall id :: id in b ==> InTree(n, id))
    ensures HashesOf(sha, hs, n, a + b) == HashesOf(sha, hs, n, a) + HashesOf(sha, hs, n, b)
  {
    var l, r := HashesOf(sha, hs, n, a + b), HashesOf(sha, hs, n, a) + HashesOf(sha, hs, n, b);
    forall k | 0 <= k < |l| ensures l[k] == r[k] {
      assert (a + b)[k] == if k < |a| then a[k] else b[k - |a|];
    }
  }

  // ---- The right edge ----

  /** The complete subtrees of heights `[h, top)` that end the tree, smallest first: one for each
      one bit of the size. */
  function EdgeIds(n: nat, h: nat, top: nat): (ids: seq<NodeId>)
    requires h <= top
    ensures forall id :: id in ids ==> h <= id.level < top && CompleteIn(n, id) && InTree(n, id)
    decreases top - h
  {
    if h == top then []
    else
      var up := EdgeIds(n, h + 1, top);
      var c := Complete(n, h);
      if c % 2 == 1 then [NodeId(h, c - 1)] + up else up
  }

  function EdgeOf(sha: Hasher, hs: seq<Digest>, n: nat, h: nat, top: nat): seq<Digest>
    requires n <= |hs| && h <= top
    decreases top - h
  {
    if h == top then []
    else
      var up := EdgeOf(sha, hs, n, h + 1, top);
      var c := Complete(n, h);
      if c % 2 == 1 then [Node(sha, hs, n, h, c - 1)] + up else up
  }

  lemma HashesCons(sha: Hasher, hs: seq<Digest>, n: nat, id: NodeId, ids: seq<NodeId>)
    requires n <= |hs| && InTree(n, id) && forall x :: x in ids ==> InTree(n, x)
    ensures HashesOf(sha, hs, n, [id] + ids) == [HashOf(sha, hs, n, id)] + HashesOf(sha, hs, n, ids)
  {
    hide HashOf, InTree;
    assert ([id] + ids)[1..] == ids;
  }

  lemma {:induction false} EdgeHashes(sha: Hasher, hs: seq<Digest>, n: nat, h: nat, top: nat)
    requires n <= |hs| && h <= top
    ensures HashesOf(sha, hs, n, EdgeIds(n, h, top)) == EdgeOf(sha, hs, n, h, top)
    decreases top - h
  {
    hide Node, HashesOf, Width;
    if h == top {
      NoHashes(sha, hs, n);
    } else {
      var c, up := Complete(n, h), EdgeIds(n, h + 1, top);
      EdgeHashes(sha, hs, n, h + 1, top);
      if c % 2 == 1 {
        assert EdgeIds(n, h, top) == [NodeId(h, c - 1)] + up;
        assert NodeId(h, c - 1) in EdgeIds(n, h, top);
        HashesCons(sha, hs, n, NodeId(h, c - 1), up);
      }
    }
  }

  lemma NoHashes(sha: Hasher, hs: seq<Digest>, n: nat)
    requires n <= |hs|
    ensures HashesOf(sha, hs, n, []) == []
  {
  }

  /** Fold larger subtrees onto `acc` from the left. */
  function FoldUp(sha: Hasher, acc: Bytes, xs: seq<Bytes>): (r: Bytes)
    ensures |acc| == 32 ==> |r| == 32
    decreases |xs|
  {
    if xs == [] then acc else FoldUp(sha, NodeHash(sha, xs[0], acc), xs[1..])
  }

  lemma EdgeStepOdd(sha: Hasher, hs: seq<Digest>, n: nat, h: nat)
    requires n <= |hs| && Complete(n, h) < Width(n, h) && Complete(n, h) % 2 == 1
    ensures Complete(n, h + 1) == Width(n, h + 1) - 1
    ensures Node(sha, hs, n, h + 1, Width(n, h + 1) - 1)
         == NodeHash(sha, Node(sha, hs, n, h, Complete(n, h) - 1), Node(sha, hs, n, h, Width(n, h) - 1))
  {
    var j := Complete(n, h + 1);
    assert Complete(n, h) == 2 * j + 1;
  }

  /** Folding the edge onto a truncated right-edge node climbs to the one at height `top`. */
  lemma {:induction false} FoldEdge(sha: Hasher, hs: seq<Digest>, n: nat, h: nat, top: nat)
    requires 0 < n <= |hs| && h <= top && Complete(n, h) < Width(n, h)
    ensures FoldUp(sha, Node(sha, hs, n, h, Width(n, h) - 1), EdgeOf(sha, hs, n, h, top))
         == Node(sha, hs, n, top, Width(n, top) - 1)
    decreases top - h
  {
    hide Node, NodeHash;
    if h < top {
      FoldEdge(sha, hs, n, h + 1, top);
      if Complete(n, h) % 2 == 1 {
        EdgeStepOdd(sha, hs, n, h);
        var up := EdgeOf(sha, hs, n, h + 1, top);
        assert EdgeOf(sha, hs, n, h, top)[1..] == up;
      } else {
        LastEvenPassesUp(sha, hs, n, h);
      }
    }
  }

  /** Folding the whole edge below `top` gives the truncated node at `top`. */
  lemma {:induction false} FoldWholeEdge(sha: Hasher, hs: seq<Digest>, n: nat, h: nat, top: nat)
    requires 0 < n <= |hs| && h <= top
    requires Complete(n, h) == Width(n, h) && Complete(n, top) < Width(n, top)
    ensures var e := EdgeOf(sha, hs, n, h, top);
            e != [] && FoldUp(sha, e[0], e[1..]) == Node(sha, hs, n, top, Width(n, top) - 1)
    decreases top - h
  {
    hide Node, NodeHash, FoldUp;
    if Complete(n, h) % 2 == 1 {
      LastEvenPassesUp(sha, hs, n, h);
      FoldEdge(sha, hs, n, h + 1, top);
      assert EdgeOf(sha, hs, n, h, top)[1..] == EdgeOf(sha, hs, n, h + 1, top);
    } else {
      FoldWholeEdge(sha, hs, n, h + 1, top);
    }
  }

  // ---- The range ----

  /** A height above every complete subtree. */
  ghost predicate Above(n: nat, top: nat) { Complete(n, top) == 0 }

  lemma {:induction false} EdgeAbove(sha: Hasher, hs: seq<Digest>, n: nat, h: nat, top: nat, top': nat)
    requires n <= |hs| && h <= top <= top' && Above(n, top)
    ensures EdgeOf(sha, hs, n, h, top) == EdgeOf(sha, hs, n, h, top') && Above(n, top')
    decreases top' - h
  {
    hide Node;
    if top < top' {
      if h < top {
        EdgeAbove(sha, hs, n, h + 1, top, top');
      } else {
        EdgeAbove(sha, hs, n, h + 1, h + 1, top');
      }
    }
  }

  /** Nodes depend on the leaves before `n` only. */
  lemma {:induction false} NodePrefix(sha: Hasher, hs: seq<Digest>, gs: seq<Digest>, n: nat, h: nat, i: nat)
    requires n <= |hs| && n <= |gs| && hs[..n] == gs[..n] && i < Width(n, h)
    ensures Node(sha, hs, n, h, i) == Node(sha, gs, n, h, i)
  {
    hide NodeHash;
    if h == 0 {
      assert hs[..n][i] == gs[..n][i];
    } else {
      NodePrefix(sha, hs, gs, n, h - 1, 2 * i);
      if 2 * i + 1 < Width(n, h - 1) {
        NodePrefix(sha, hs, gs, n, h - 1, 2 * i + 1);
      }
    }
  }

  /** A complete node survives appending a leaf. */
  lemma NodeAfterAppend(sha: Hasher, hs: seq<Digest>, leaf: Digest, h: nat, i: nat)
    requires i < Complete(|hs|, h)
    ensures i < Width(|hs| + 1, h)
    ensures Node(sha, hs + [leaf], |hs| + 1, h, i) == Node(sha, hs, |hs|, h, i)
  {
    hide Node;
    assert (hs + [leaf])[..|hs|] == hs[..|hs|];
    NodePrefix(sha, hs, hs + [leaf], |hs|, h, i);
    CompleteNodeStable(sha, hs + [leaf], |hs|, |hs| + 1, h, i);
  }

  lemma {:induction false} EdgeAfterAppend(sha: Hasher, hs: seq<Digest>, leaf: Digest, h: nat, top: nat)
    requires h <= top && Complete(|hs| + 1, h) == Complete(|hs|, h)
    ensures EdgeOf(sha, hs + [leaf], |hs| + 1, h, top) == EdgeOf(sha, hs, |hs|, h, top)
    decreases top - h
  {
    hide Node;
    if h < top {
      EdgeAfterAppend(sha, hs, leaf, h + 1, top);
      if Complete(|hs|, h) % 2 == 1 {
        NodeAfterAppend(sha, hs, leaf, h, Complete(|hs|, h) - 1);
      }
    }
  }

  ghost predicate EvenAt(n: nat, h: nat) { Complete(n, h) % 2 == 0 }

  /** A carry out of odd counters: no subtree of the grown tree ends below the carry. */
  lemma {:induction false} EdgeBelowCarry(sha: Hasher, hs: seq<Digest>, n: nat, h: nat, j: nat, top: nat)
    requires n <= |hs| && h <= j <= top
    requires forall k :: h <= k < j ==> EvenAt(n, k)
    ensures EdgeOf(sha, hs, n, h, top) == EdgeOf(sha, hs, n, j, top)
    decreases j - h
  {
    hide Node;
    if h < j {
      assert EvenAt(n, h);
      EdgeBelowCarry(sha, hs, n, h + 1, j, top);
    }
  }

  datatype Visit = Visit(id: NodeId, hash: Digest)

  /** `compact.Range` from leaf 0: `hashes` holds the complete subtree roots, smallest first. */
  class Range {
    const sha: Hasher
    var end: nat
    var hashes: seq<Digest>

    /** The stack is the right edge of the tree over `leaves`. */
    ghost predicate Holds(leaves: seq<Digest>)
      reads this
    {
      && end == |leaves|
      && exists top: nat :: Above(end, top) && hashes == EdgeOf(sha, leaves, end, 0, top)
    }

    constructor (sha: Hasher)
      ensures this.sha == sha && end == 0 && Holds([])
    {
      this.sha := sha;
      end := 0;
      hashes := [];
      new;
      assert Above(0, 0) && EdgeOf(sha, [], 0, 0, 0) == [];
    }

    /** Append a leaf hash, merging equal-sized subtrees; each completed interior node is visited. */
    method Append(leaf: Digest, ghost leaves: seq<Digest>) returns (visits: seq<Visit>)
      requires Holds(leaves)
      modifies this
      ensures Holds(leaves + [leaf])
      ensures forall v :: v in visits ==> v.id.level > 0 && CompleteIn(end, v.id) && InTree(end, v.id)
                                          && v.hash == HashOf(sha, leaves + [leaf], end, v.id)
    {
      hide EdgeOf, Node, NodeHash;
      ghost var n, m, grown := end, end + 1, leaves + [leaf];
      ghost var top: nat :| Above(n, top) && hashes == EdgeOf(sha, leaves, n, 0, top);
      var seed, index, h := leaf, end, 0;
      var stack := hashes;
      visits := [];
      assert Node(sha, grown, n + 1, 0, index) == leaf by { LeafNode(sha, grown, n + 1, n); }
      while index % 2 == 1
        invariant end == n
        invariant h <= top && index == Complete(n, h) && Complete(n + 1, h) == index + 1
        invariant forall k :: 0 <= k < h ==> EvenAt(m, k)
        invariant stack == EdgeOf(sha, leaves, n, h, top)
        invariant seed == Node(sha, grown, n + 1, h, index)
        invariant forall v :: v in visits ==> v.id.level > 0 && CompleteIn(n + 1, v.id) && InTree(n + 1, v.id)
                                              && v.hash == HashOf(sha, grown, n + 1, v.id)
        decreases index
      {
        CarryStep(sha, leaves, leaf, h, top);
        seed, stack := NodeHash(sha, stack[0], seed), stack[1..];
        index, h := index / 2, h + 1;
        visits := visits + [Visit(NodeId(h, index), seed)];
      }
      RestStep(sha, leaves, leaf, m, h, top);
      hashes := [seed] + stack;
      end := end + 1;
      assert Above(end, top + 1) && hashes == EdgeOf(sha, grown, end, 0, top + 1);
    }

    /** `GetRootHash`: fold the stack from the right edge. */
    method GetRootHash(ghost leaves: seq<Digest>) returns (root: Digest)
      requires Holds(leaves) && end > 0
      ensures root == SubRoot(sha, leaves, 0, end)
    {
      hide EdgeOf, Node, NodeHash, SubRoot;
      ghost var top: nat :| Above(end, top) && hashes == EdgeOf(sha, leaves, end, 0, top);
      FoldsToRoot(sha, leaves, end, top);
      root := hashes[0];
      for k := 1 to |hashes|
        invariant FoldUp(sha, root, hashes[k..]) == SubRoot(sha, leaves, 0, end)
      {
        assert hashes[k..][1..] == hashes[k + 1..];
        root := NodeHash(sha, hashes[k], root);
      }
    }
  }

  lemma LeafNode(sha: Hasher, hs: seq<Digest>, n: nat, i: nat)
    requires i < n <= |hs|
    ensures Node(sha, hs, n, 0, i) == hs[i]
  {
  }

  /** One merge: an odd counter gives up its subtree and carries. */
  lemma CarryStep(sha: Hasher, hs: seq<Digest>, leaf: Digest, h: nat, top: nat)
    requires h <= top && Above(|hs|, top)
    requires Complete(|hs|, h) % 2 == 1 && Complete(|hs| + 1, h) == Complete(|hs|, h) + 1
    ensures h < top
    ensures var n, stack := |hs|, EdgeOf(sha, hs, |hs|, h, top);
            var c := Complete(n, h);
            && stack != [] && stack[1..] == EdgeOf(sha, hs, n, h + 1, top)
            && Complete(n, h + 1) == c / 2 && Complete(n + 1, h + 1) == c / 2 + 1
            && Node(sha, hs + [leaf], n + 1, h + 1, c / 2)
               == NodeHash(sha, stack[0], Node(sha, hs + [leaf], n + 1, h, c))
  {
    hide NodeHash;
    var c := Complete(|hs|, h);
    NodeAfterAppend(sha, hs, leaf, h, c - 1);
    assert c == 2 * (c / 2) + 1;
  }

  /** After the last merge the new subtree tops the stack of the grown tree. */
  lemma RestStep(sha: Hasher, hs: seq<Digest>, leaf: Digest, m: nat, h: nat, top: nat)
    requires m == |hs| + 1 && h <= top && Above(|hs|, top)
    requires Complete(|hs|, h) % 2 == 0 && Complete(|hs| + 1, h) == Complete(|hs|, h) + 1
    requires forall k :: 0 <= k < h ==> EvenAt(m, k)
    ensures Above(|hs| + 1, top + 1)
    ensures EdgeOf(sha, hs + [leaf], |hs| + 1, 0, top + 1)
         == [Node(sha, hs + [leaf], |hs| + 1, h, Complete(|hs|, h))] + EdgeOf(sha, hs, |hs|, h, top)
  {
    hide Node, EdgeOf, Complete;
    var n, grown := |hs|, hs + [leaf];
    EdgeBelowCarry(sha, grown, m, 0, h, top + 1);
    CounterAfter(n, h);
    EdgeAfterAppend(sha, hs, leaf, h + 1, top + 1);
    EdgeAbove(sha, hs, n, h, top, top + 1);
    CompleteUp(n, h + 1, top + 1);
    EdgeHead(sha, grown, n + 1, h, top + 1);
    EdgeHead(sha, hs, n, h, top + 1);
  }

  /** The counters above an even one do not change. */
  lemma CounterAfter(n: nat, h: nat)
    requires Complete(n, h) % 2 == 0 && Complete(n + 1, h) == Complete(n, h) + 1
    ensures Complete(n + 1, h + 1) == Complete(n, h + 1)
  {
  }

  lemma EdgeHead(sha: Hasher, hs: seq<Digest>, n: nat, h: nat, top: nat)
    requires n <= |hs| && h < top
    ensures EdgeOf(sha, hs, n, h, top)
         == (if Complete(n, h) % 2 == 1 then [Node(sha, hs, n, h, Complete(n, h) - 1)] else [])
            + EdgeOf(sha, hs, n, h + 1, top)
  {
    hide Node;
  }

  lemma {:induction false} CompleteUp(n: nat, h: nat, top: nat)
    requires h <= top && Complete(n + 1, h) == Complete(n, h)
    ensures Complete(n + 1, top) == Complete(n, top)
    decreases top
  {
    if h < top {
      CompleteUp(n, h, top - 1);
    }
  }

  lemma FoldsToRoot(sha: Hasher, hs: seq<Digest>, n: nat, top: nat)
    requires 0 < n <= |hs| && Above(n, top)
    ensures var e := EdgeOf(sha, hs, n, 0, top);
            e != [] && FoldUp(sha, e[0], e[1..]) == SubRoot(sha, hs, 0, n)
  {
    hide Node, SubRoot, FoldUp;
    FoldWholeEdge(sha, hs, n, 0, top);
    TopNodeIsRoot(sha, hs, n, top);
  }
}
