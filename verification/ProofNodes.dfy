/** The node lists `proof.Inclusion` and `proof.Consistency` hand to the tree, and `Rehash`, which
    folds the truncated right-edge node of such a list back into one hash. */
module ProofNodes {
  import opened Encoding
  import opened Hashing
  import opened Rfc6962
  import opened Inclusion
  import opened Consistency
  import opened CompactRange

  /** `ids[begin..end]` together make up one truncated node, smallest subtree first. */
  datatype Nodes = Nodes(ids: seq<NodeId>, begin: nat, end: nat)
  {
    predicate Shaped() { begin <= end <= |ids| && (begin == end ==> begin == 0) }

    function Prepend(id: NodeId): (r: Nodes)
      requires Shaped()
      ensures r.Shaped()
    {
      if begin < end then Nodes([id] + ids, begin + 1, end + 1) else Nodes([id] + ids, 0, 0)
    }
  }

  /** The siblings met on the way from node `i` of height `h` to the root of a tree of `n` leaves. */
  function PathNodes(n: nat, h: nat, i: nat): (r: Nodes)
    requires i < Width(n, h)
    ensures r.Shaped()
    ensures forall id :: id in r.ids ==> CompleteIn(n, id) && InTree(n, id)
    ensures i == Width(n, h) - 1 ==> r.end == 0
    decreases Width(n, h)
  {
    if Width(n, h) <= 1 then Nodes([], 0, 0)
    else
      var up := PathNodes(n, h + 1, i / 2);
      if i % 2 == 1 then up.Prepend(NodeId(h, i - 1))
      else if i + 1 < Complete(n, h) then up.Prepend(NodeId(h, i + 1))
      else if i + 1 < Width(n, h) then
        var edge := EdgeIds(n, 0, h);
        if edge == [] then up else Nodes(edge + up.ids, 0, |edge|)
      else up
  }

  /** `Nodes.Rehash`. */
  function Rehash(sha: Hasher, nodes: Nodes, hashes: seq<Bytes>): seq<Bytes>
    requires nodes.Shaped() && |hashes| == |nodes.ids|
  {
    if nodes.begin < nodes.end then
      hashes[..nodes.begin]
      + [FoldUp(sha, hashes[nodes.begin], hashes[nodes.begin + 1..nodes.end])]
      + hashes[nodes.end..]
    else hashes
  }

  lemma RehashPrepend(sha: Hasher, nodes: Nodes, id: NodeId, x: Bytes, hashes: seq<Bytes>)
    requires nodes.Shaped() && |hashes| == |nodes.ids|
    ensures Rehash(sha, nodes.Prepend(id), [x] + hashes) == [x] + Rehash(sha, nodes, hashes)
  {
    hide FoldUp;
    if nodes.begin < nodes.end {
      var b, e := nodes.begin, nodes.end;
      PrependedParts(x, hashes, b, e, FoldUp(sha, hashes[b], hashes[b + 1..e]));
    }
  }

  lemma PrependedParts(x: Bytes, hashes: seq<Bytes>, b: nat, e: nat, y: Bytes)
    requires b < e <= |hashes|
    ensures ([x] + hashes)[b + 1] == hashes[b] && ([x] + hashes)[b + 2..e + 1] == hashes[b + 1..e]
    ensures ([x] + hashes)[..b + 1] + [y] + ([x] + hashes)[e + 1..] == [x] + (hashes[..b] + [y] + hashes[e..])
  {
    assert ([x] + hashes)[..b + 1] == [x] + hashes[..b];
    assert ([x] + hashes)[e + 1..] == hashes[e..];
    assert ([x] + hashes[..b]) + [y] + hashes[e..] == [x] + (hashes[..b] + [y] + hashes[e..]);
  }

  /** The node-list contract: rehashing the hashes of the listed nodes gives the sibling path. */
  lemma {:induction false} PathNodesRehash(sha: Hasher, hs: seq<Digest>, n: nat, h: nat, i: nat)
    requires 0 < n <= |hs| && i < Width(n, h)
    ensures var nodes := PathNodes(n, h, i);
            Rehash(sha, nodes, HashesOf(sha, hs, n, nodes.ids)) == PathFrom(sha, hs, n, h, i)
    decreases Width(n, h)
  {
    hide Node, HashesOf, Rehash, FoldUp, EdgeIds;
    if Width(n, h) <= 1 {
      RehashNothing(sha, hs, n);
    } else {
      PathNodesRehash(sha, hs, n, h + 1, i / 2);
      var up := PathNodes(n, h + 1, i / 2);
      if i % 2 == 1 {
        RehashSibling(sha, hs, n, up, NodeId(h, i - 1));
      } else if i + 1 < Complete(n, h) {
        RehashSibling(sha, hs, n, up, NodeId(h, i + 1));
      } else if i + 1 < Width(n, h) {
        RehashEdge(sha, hs, n, h, up);
      }
    }
  }

  lemma RehashNothing(sha: Hasher, hs: seq<Digest>, n: nat)
    requires n <= |hs|
    ensures Rehash(sha, Nodes([], 0, 0), HashesOf(sha, hs, n, [])) == []
  {
  }

  lemma RehashSibling(sha: Hasher, hs: seq<Digest>, n: nat, up: Nodes, id: NodeId)
    requires n <= |hs| && up.Shaped() && InTree(n, id) && forall x :: x in up.ids ==> InTree(n, x)
    ensures Rehash(sha, up.Prepend(id), HashesOf(sha, hs, n, up.Prepend(id).ids))
         == [Node(sha, hs, n, id.level, id.index)] + Rehash(sha, up, HashesOf(sha, hs, n, up.ids))
  {
    hide Node, Rehash;
    RehashPrepend(sha, up, id, HashOf(sha, hs, n, id), HashesOf(sha, hs, n, up.ids));
    HashesOfAppend(sha, hs, n, [id], up.ids);
    assert HashesOf(sha, hs, n, [id]) == [HashOf(sha, hs, n, id)];
  }

  lemma RehashEdge(sha: Hasher, hs: seq<Digest>, n: nat, h: nat, up: Nodes)
    requires 0 < n <= |hs| && up.Shaped() && up.end == 0 && forall x :: x in up.ids ==> InTree(n, x)
    requires Complete(n, h) < Width(n, h)
    ensures var edge := EdgeIds(n, 0, h);
            && edge != []
            && Rehash(sha, Nodes(edge + up.ids, 0, |edge|), HashesOf(sha, hs, n, edge + up.ids))
               == [Node(sha, hs, n, h, Width(n, h) - 1)] + Rehash(sha, up, HashesOf(sha, hs, n, up.ids))
  {
    hide Node, FoldUp, EdgeIds, EdgeOf, Complete, Width;
    var edge := EdgeIds(n, 0, h);
    EdgeHashes(sha, hs, n, 0, h);
    ZeroLevel(n);
    FoldWholeEdge(sha, hs, n, 0, h);
    HashesOfAppend(sha, hs, n, edge, up.ids);
    var es, us := HashesOf(sha, hs, n, edge), HashesOf(sha, hs, n, up.ids);
    assert (es + us)[1..|edge|] == es[1..] && (es + us)[|edge|..] == us;
  }

  // ---- The two request kinds ----

  /** `proof.Inclusion` for a leaf inside the tree. */
  function InclusionNodes(idx: nat, size: nat): (r: Nodes)
    requires idx < size
    ensures r.Shaped() && forall id :: id in r.ids ==> CompleteIn(size, id) && InTree(size, id)
  {
    PathNodes(size, 0, idx)
  }

  lemma InclusionNodesGiveAuditPath(sha: Hasher, hs: seq<Digest>, idx: nat, size: nat)
    requires idx < size <= |hs|
    ensures var nodes := InclusionNodes(idx, size);
            Rehash(sha, nodes, HashesOf(sha, hs, size, nodes.ids)) == AuditPath(sha, hs, idx, 0, size)
  {
    hide AuditPath, PathFrom, PathNodes, HashesOf, Rehash;
    PathNodesRehash(sha, hs, size, 0, idx);
    AuditPathIsPathFrom(sha, hs, size, idx);
  }

  /** `proof.Consistency` for `0 < oldSize < newSize`: the highest node ending at the old size (left
      out when it is the whole old tree), then its path in the new tree. */
  function ConsistencyNodes(oldSize: nat, newSize: nat): (r: Nodes)
    requires 0 < oldSize < newSize
    ensures r.Shaped() && forall id :: id in r.ids ==> CompleteIn(newSize, id) && InTree(newSize, id)
  {
    var level := StripSteps(oldSize - 1);
    var index := StripOnes(oldSize - 1, newSize - 1).0;
    SeedInTree(oldSize, newSize);
    var path := PathNodes(newSize, level, index);
    if index == 0 then path else path.Prepend(NodeId(level, index))
  }

  lemma SeedInTree(m: nat, n: nat)
    requires 0 < m < n
    ensures var s, fs := StripSteps(m - 1), StripOnes(m - 1, n - 1).0;
            && fs == Width(m, s) - 1 && fs % 2 == 0 && Complete(m, s) == Width(m, s)
            && fs < Complete(n, s) && fs < Width(n, s)
  {
    hide StripOnes, StripSteps, Complete, Width;
    ZeroLevel(m);
    ZeroLevel(n);
    var s := StripLevel(m, n, 0);
    CompleteMonotone(m, n, s);
  }

  lemma ConsistencyNodesGiveSubProof(sha: Hasher, hs: seq<Digest>, m: nat, n: nat)
    requires 0 < m < n <= |hs|
    ensures var nodes := ConsistencyNodes(m, n);
            Rehash(sha, nodes, HashesOf(sha, hs, n, nodes.ids)) == SubProof(sha, hs, m, 0, n, true)
  {
    hide SubProof, PathFrom, PathNodes, HashesOf, Rehash, Node, StripOnes, StripSteps, Complete, Width;
    var s, fs := StripSteps(m - 1), StripOnes(m - 1, n - 1).0;
    SeedInTree(m, n);
    PathNodesRehash(sha, hs, n, s, fs);
    SubProofFromSeed(sha, hs, m, n, s, fs);
    if fs != 0 {
      RehashSibling(sha, hs, n, PathNodes(n, s, fs), NodeId(s, fs));
    } else {
      assert [] + PathFrom(sha, hs, n, s, fs) == PathFrom(sha, hs, n, s, fs);
    }
  }
}
