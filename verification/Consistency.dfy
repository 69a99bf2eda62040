/** `_verify_consistency` against the recursive tree hash of section 2.1.2 of RFC 6962. */
module Consistency {
  import opened Encoding
  import opened Hashing
  import opened Rfc6962
  import opened Inclusion

  // ---- The verifier ----

  /** Bitwise `&`. */
  function BitAnd(a: nat, b: nat): nat
    decreases a
  {
    if a == 0 || b == 0 then 0 else (a % 2) * (b % 2) + 2 * BitAnd(a / 2, b / 2)
  }

  /** `_is_power_of_two`. */
  predicate IsPowerOfTwo(n: nat) { n > 0 && BitAnd(n, n - 1) == 0 }

  /** The first `while`: strip the trailing one bits of `fn`. */
  function StripOnes(fn: nat, sn: int): (nat, int)
    decreases fn
  {
    if fn % 2 == 1 then StripOnes(fn / 2, sn / 2) else (fn, sn)
  }

  /** How many trailing one bits there are: the trailing zeros of `fn + 1`. */
  function StripSteps(fn: nat): nat
    decreases fn
  {
    if fn % 2 == 1 then 1 + StripSteps(fn / 2) else 0
  }

  /** What the proof loop decides from an intermediate `(fn, sn, fr, sr)`. */
  predicate AcceptsPair(sha: Hasher, fn: nat, sn: int, fr: Bytes, sr: Bytes, nodes: seq<Bytes>, oldRoot: Bytes,
                        newRoot: Bytes)
    decreases |nodes|
  {
    if nodes == [] then fr == oldRoot && sr == newRoot && sn == 0
    else if sn == 0 then false
    else if fn % 2 == 1 || fn == sn then
      var (f, s) := Climb(fn, sn);
      AcceptsPair(sha, f / 2, s / 2, NodeHash(sha, nodes[0], fr), NodeHash(sha, nodes[0], sr), nodes[1..], oldRoot,
                  newRoot)
    else
      AcceptsPair(sha, fn / 2, sn / 2, fr, NodeHash(sha, sr, nodes[0]), nodes[1..], oldRoot, newRoot)
  }

  /** The proof with the old root put in front when the proof leaves it out. */
  function ProofNodes(oldSize: nat, proof: seq<Bytes>, oldRoot: Bytes): seq<Bytes>
  {
    if IsPowerOfTwo(oldSize) then [oldRoot] + proof else proof
  }

  /** What `_verify_consistency` decides. */
  predicate ConsistencyAccepts(sha: Hasher, oldSize: nat, newSize: nat, proof: seq<Bytes>, oldRoot: Bytes,
                               newRoot: Bytes)
  {
    if oldSize == newSize then proof == [] && oldRoot == newRoot
    else if oldSize == 0 then proof == []
    else
      var nodes := ProofNodes(oldSize, proof, oldRoot);
      var (fn, sn) := StripOnes(oldSize - 1, newSize - 1);
      nodes != [] && AcceptsPair(sha, fn, sn, nodes[0], nodes[0], nodes[1..], oldRoot, newRoot)
  }

  /** `messages` covers everything the proof loop hashes. */
  ghost predicate CoversPair(sha: Hasher, fn: nat, sn: int, fr: Bytes, sr: Bytes, nodes: seq<Bytes>,
                             messages: set<Bytes>)
    decreases |nodes|
  {
    if nodes == [] || sn == 0 then true
    else if fn % 2 == 1 || fn == sn then
      var (f, s) := Climb(fn, sn);
      && NodeInput(nodes[0], fr) in messages && NodeInput(nodes[0], sr) in messages
      && CoversPair(sha, f / 2, s / 2, NodeHash(sha, nodes[0], fr), NodeHash(sha, nodes[0], sr), nodes[1..], messages)
    else
      && NodeInput(sr, nodes[0]) in messages
      && CoversPair(sha, fn / 2, sn / 2, fr, NodeHash(sha, sr, nodes[0]), nodes[1..], messages)
  }

  ghost predicate CoversCheck(sha: Hasher, oldSize: nat, newSize: nat, proof: seq<Bytes>, oldRoot: Bytes,
                              messages: set<Bytes>)
  {
    var nodes := ProofNodes(oldSize, proof, oldRoot);
    0 < oldSize && nodes != [] ==>
      var (fn, sn) := StripOnes(oldSize - 1, newSize - 1);
      CoversPair(sha, fn, sn, nodes[0], nodes[0], nodes[1..], messages)
  }

  /** `_verify_consistency`. */
  method VerifyConsistency(sha: Hasher, oldSize: nat, newSize: nat, proof: seq<Bytes>, oldRoot: Bytes, newRoot: Bytes)
    returns (ok: bool)
    ensures ok <==> ConsistencyAccepts(sha, oldSize, newSize, proof, oldRoot, newRoot)
  {
    if oldSize == newSize {
      return |proof| == 0 && oldRoot == newRoot;
    }
    if oldSize == 0 {
      return |proof| == 0;
    }
    var nodes := proof;
    if IsPowerOfTwo(oldSize) {
      nodes := [oldRoot] + nodes;
    }
    var fn: nat, sn: int := oldSize - 1, newSize - 1;
    while fn % 2 == 1
      invariant StripOnes(fn, sn) == StripOnes(oldSize - 1, newSize - 1)
      decreases fn
    {
      fn, sn := fn / 2, sn / 2;
    }
    if nodes == [] {
      return false;
    }
    var fr, sr := nodes[0], nodes[0];
    ghost var verdict := AcceptsPair(sha, fn, sn, fr, sr, nodes[1..], oldRoot, newRoot);
    for k := 1 to |nodes|
      invariant verdict == AcceptsPair(sha, fn, sn, fr, sr, nodes[k..], oldRoot, newRoot)
    {
      var c := nodes[k];
      assert nodes[k..][0] == c;
      assert nodes[k..][1..] == nodes[k + 1..];
      if sn == 0 {
        return false;
      }
      if fn % 2 == 1 || fn == sn {
        fr, sr := NodeHash(sha, c, fr), NodeHash(sha, c, sr);
        ghost var climbed := Climb(fn, sn);
        while fn % 2 == 0 && fn != 0
          invariant Climb(fn, sn) == climbed
        {
          fn, sn := fn / 2, sn / 2;
        }
      } else {
        sr := NodeHash(sha, sr, c);
      }
      fn, sn := fn / 2, sn / 2;
    }
    return fr == oldRoot && sr == newRoot && sn == 0;
  }

  // ---- The starting node ----

  /** Stripping the ones of `m - 1` reaches the highest node that ends exactly at leaf `m`. */
  lemma {:induction false} StripLevel(m: nat, n: nat, h: nat) returns (s: nat)
    requires 0 < m <= n && Complete(m, h) == Width(m, h)
    ensures s == h + StripSteps(Width(m, h) - 1) && Complete(m, s) == Width(m, s)
    ensures StripOnes(Width(m, h) - 1, Width(n, h) - 1) == (Width(m, s) - 1, Width(n, s) - 1)
    ensures (Width(m, s) - 1) % 2 == 0
    ensures m < n && Width(m, h) < Width(n, h) ==> Width(m, s) < Width(n, s)
    decreases Width(m, h)
  {
    hide Width, Complete;
    if (Width(m, h) - 1) % 2 == 1 {
      WidthHalves(n, h);
      CompleteHalves(m, h);
      s := StripLevel(m, n, h + 1);
    } else {
      s := h;
    }
  }

  lemma CompleteHalves(m: nat, h: nat)
    requires m > 0 && Complete(m, h) == Width(m, h) && Width(m, h) % 2 == 0
    ensures Complete(m, h + 1) == Width(m, h + 1) == Width(m, h) / 2
    ensures Width(m, h + 1) - 1 == (Width(m, h) - 1) / 2
  {
  }

  // ---- Soundness ----

  /** One accepting turn at an odd or border node. */
  lemma PairLeftTurn(sha: Hasher, fn: nat, sn: int, fr: Bytes, sr: Bytes, nodes: seq<Bytes>, oldRoot: Bytes,
                     newRoot: Bytes,
                 messages: set<Bytes>, f: nat, s: int)
    requires nodes != [] && (fn % 2 == 1 || fn == sn)
    requires AcceptsPair(sha, fn, sn, fr, sr, nodes, oldRoot, newRoot)
    requires CoversPair(sha, fn, sn, fr, sr, nodes, messages)
    requires f == Climb(fn, sn).0 / 2 && s == Climb(fn, sn).1 / 2
    ensures sn != 0 && NodeInput(nodes[0], fr) in messages && NodeInput(nodes[0], sr) in messages
    ensures AcceptsPair(sha, f, s, NodeHash(sha, nodes[0], fr), NodeHash(sha, nodes[0], sr), nodes[1..], oldRoot,
                        newRoot)
    ensures CoversPair(sha, f, s, NodeHash(sha, nodes[0], fr), NodeHash(sha, nodes[0], sr), nodes[1..], messages)
  {
  }

  /** One accepting turn at an even node with a right sibling. */
  lemma PairRightTurn(sha: Hasher, fn: nat, sn: int, fr: Bytes, sr: Bytes, nodes: seq<Bytes>, oldRoot: Bytes,
                      newRoot: Bytes,
                  messages: set<Bytes>, f: nat, s: int)
    requires nodes != [] && fn % 2 == 0 && fn != sn
    requires AcceptsPair(sha, fn, sn, fr, sr, nodes, oldRoot, newRoot)
    requires CoversPair(sha, fn, sn, fr, sr, nodes, messages)
    requires f == fn / 2 && s == sn / 2
    ensures sn != 0 && NodeInput(sr, nodes[0]) in messages
    ensures AcceptsPair(sha, f, s, fr, NodeHash(sha, sr, nodes[0]), nodes[1..], oldRoot, newRoot)
    ensures CoversPair(sha, f, s, fr, NodeHash(sha, sr, nodes[0]), nodes[1..], messages)
  {
  }

  /** At an odd last node of the old tree, the old parent is right exactly when the old node is. */
  lemma OldLeftStep(sha: Hasher, hs: seq<Digest>, m: nat, n: nat, h: nat, c: Bytes, fr: Bytes, messages: set<Bytes>)
    requires 0 < m <= n <= |hs| && (Width(m, h) - 1) % 2 == 1 && Width(m, h) <= Width(n, h)
    requires CollisionFree(sha, messages) && CoversTree(sha, hs, m, messages)
    requires NodeInput(c, fr) in messages
    requires c == Node(sha, hs, n, h, Width(m, h) - 2)
    ensures NodeHash(sha, c, fr) == Node(sha, hs, m, h + 1, Width(m, h + 1) - 1)
       <==> fr == Node(sha, hs, m, h, Width(m, h) - 1)
  {
    var fn := Width(m, h) - 1;
    var j := fn / 2;
    assert fn == 2 * j + 1 && Width(m, h + 1) - 1 == j;
    CompleteNodeStable(sha, hs, m, n, h, fn - 1);
    assert ParentInput(sha, hs, m, h, j) in messages;
    assert Node(sha, hs, m, h + 1, j) == NodeHash(sha, c, Node(sha, hs, m, h, fn));
    if NodeHash(sha, c, fr) == Node(sha, hs, m, h + 1, j) {
      NodeInputPrefix(c, fr, Node(sha, hs, m, h, fn));
    }
  }

  /** From an accepting state, `sr` is the new tree's node, and `fr` is the old tree's node exactly
      when the old root is the root of the first `m` leaves. */
  lemma {:induction false} PairSound(sha: Hasher, hs: seq<Digest>, m: nat, n: nat, h: nat, fr: Bytes, sr: Bytes,
                                     nodes: seq<Bytes>,
                                     oldRoot: Bytes, newRoot: Bytes, messages: set<Bytes>)
    requires 0 < m <= n <= |hs| && |sr| == 32 && newRoot == SubRoot(sha, hs, 0, n)
    requires AcceptsPair(sha, Width(m, h) - 1, Width(n, h) - 1, fr, sr, nodes, oldRoot, newRoot)
    requires CoversPair(sha, Width(m, h) - 1, Width(n, h) - 1, fr, sr, nodes, messages)
    requires CollisionFree(sha, messages) && CoversTree(sha, hs, m, messages) && CoversTree(sha, hs, n, messages)
    ensures Width(m, h) <= Width(n, h)
    ensures sr == Node(sha, hs, n, h, Width(m, h) - 1)
    ensures fr == Node(sha, hs, m, h, Width(m, h) - 1) <==> oldRoot == SubRoot(sha, hs, 0, m)
    decreases |nodes|, 1
  {
    hide Node, Width, ClimbSteps, CoversPair, CoversTree, CollisionFree, SubRoot, NodeHash;
    CompleteMonotone(m, n, h);
    var fn, sn := Width(m, h) - 1, Width(n, h) - 1;
    if nodes == [] {
      TopNodeIsRoot(sha, hs, n, h);
      TopNodeIsRoot(sha, hs, m, h);
    } else if fn % 2 == 1 {
      PairSoundLeft(sha, hs, m, n, h, h, fr, sr, nodes, oldRoot, newRoot, messages);
    } else if fn == sn {
      ClimbBoth(sha, hs, m, n, h);
      PairSoundLeft(sha, hs, m, n, h, h + ClimbSteps(fn), fr, sr, nodes, oldRoot, newRoot, messages);
    } else {
      PairSoundRight(sha, hs, m, n, h, fr, sr, nodes, oldRoot, newRoot, messages);
    }
  }

  /** When the two trees share their last node, they climb together. */
  lemma ClimbBoth(sha: Hasher, hs: seq<Digest>, m: nat, n: nat, h: nat)
    requires 0 < m <= n <= |hs| && 1 < Width(m, h) == Width(n, h)
    ensures var fn, top := Width(m, h) - 1, h + ClimbSteps(Width(m, h) - 1);
            && Climb(fn, fn) == (Width(m, top) - 1, Width(n, top) - 1)
            && (Width(m, top) - 1) % 2 == 1 && Width(m, top) == Width(n, top)
            && Node(sha, hs, m, top, Width(m, top) - 1) == Node(sha, hs, m, h, fn)
            && Node(sha, hs, n, top, Width(m, top) - 1) == Node(sha, hs, n, h, fn)
  {
    hide Node; hide Width; hide Climb; hide PathFrom; hide ClimbSteps;
    var _, _ := ClimbBorder(sha, hs, n, h, Width(m, h) - 1);
    var _, _ := ClimbBorder(sha, hs, m, h, Width(m, h) - 1);
  }

  lemma {:induction false} PairSoundLeft(sha: Hasher, hs: seq<Digest>, m: nat, n: nat, h: nat, top: nat, fr: Bytes,
                                         sr: Bytes,
                                         nodes: seq<Bytes>, oldRoot: Bytes, newRoot: Bytes, messages: set<Bytes>)
    requires 0 < m <= n <= |hs| && |sr| == 32 && newRoot == SubRoot(sha, hs, 0, n)
    requires AcceptsPair(sha, Width(m, h) - 1, Width(n, h) - 1, fr, sr, nodes, oldRoot, newRoot)
    requires CoversPair(sha, Width(m, h) - 1, Width(n, h) - 1, fr, sr, nodes, messages)
    requires CollisionFree(sha, messages) && CoversTree(sha, hs, m, messages) && CoversTree(sha, hs, n, messages)
    requires nodes != [] && Width(m, h) <= Width(n, h) && ((Width(m, h) - 1) % 2 == 1 || Width(m, h) == Width(n, h))
    requires Climb(Width(m, h) - 1, Width(n, h) - 1) == (Width(m, top) - 1, Width(n, top) - 1)
    requires (Width(m, top) - 1) % 2 == 1 && Width(m, top) <= Width(n, top)
    requires Node(sha, hs, m, top, Width(m, top) - 1) == Node(sha, hs, m, h, Width(m, h) - 1)
    requires Node(sha, hs, n, top, Width(m, top) - 1) == Node(sha, hs, n, h, Width(m, h) - 1)
    ensures sr == Node(sha, hs, n, h, Width(m, h) - 1)
    ensures fr == Node(sha, hs, m, h, Width(m, h) - 1) <==> oldRoot == SubRoot(sha, hs, 0, m)
    decreases |nodes|, 0
  {
    hide Node, Width, Climb, CoversPair, CoversTree, CollisionFree, SubRoot, AcceptsPair;
    WidthHalves(m, top);
    WidthHalves(n, top);
    PairLeftTurn(sha, Width(m, h) - 1, Width(n, h) - 1, fr, sr, nodes, oldRoot, newRoot, messages,
             Width(m, top + 1) - 1, Width(n, top + 1) - 1);
    PairSound(sha, hs, m, n, top + 1, NodeHash(sha, nodes[0], fr), NodeHash(sha, nodes[0], sr), nodes[1..], oldRoot,
              newRoot, messages);
    LeftStep(sha, hs, n, top, Width(m, top) - 1, nodes[0], sr, messages);
    OldLeftStep(sha, hs, m, n, top, nodes[0], fr, messages);
  }

  lemma {:induction false} PairSoundRight(sha: Hasher, hs: seq<Digest>, m: nat, n: nat, h: nat, fr: Bytes, sr: Bytes,
                                          nodes: seq<Bytes>, oldRoot: Bytes, newRoot: Bytes, messages: set<Bytes>)
    requires 0 < m <= n <= |hs| && newRoot == SubRoot(sha, hs, 0, n)
    requires AcceptsPair(sha, Width(m, h) - 1, Width(n, h) - 1, fr, sr, nodes, oldRoot, newRoot)
    requires CoversPair(sha, Width(m, h) - 1, Width(n, h) - 1, fr, sr, nodes, messages)
    requires CollisionFree(sha, messages) && CoversTree(sha, hs, m, messages) && CoversTree(sha, hs, n, messages)
    requires nodes != [] && (Width(m, h) - 1) % 2 == 0 && Width(m, h) < Width(n, h)
    ensures |sr| == 32 <==> sr == Node(sha, hs, n, h, Width(m, h) - 1)
    ensures fr == Node(sha, hs, m, h, Width(m, h) - 1) <==> oldRoot == SubRoot(sha, hs, 0, m)
    decreases |nodes|, 0
  {
    hide Node, SubRoot, AcceptsPair, CoversPair, CoversTree, CollisionFree, Climb, Width;
    WidthHalves(m, h);
    WidthHalves(n, h);
    PairRightTurn(sha, Width(m, h) - 1, Width(n, h) - 1, fr, sr, nodes, oldRoot, newRoot, messages,
              Width(m, h + 1) - 1, Width(n, h + 1) - 1);
    PairSound(sha, hs, m, n, h + 1, fr, NodeHash(sha, sr, nodes[0]), nodes[1..], oldRoot, newRoot, messages);
    RightStep(sha, hs, n, h, Width(m, h) - 1, sr, nodes[0], messages);
    LastEvenPassesUp(sha, hs, m, h);
  }

  /** A start that has not reached the root yet needs a further node. */
  lemma SecondNode(sha: Hasher, fn: nat, sn: int, seed: Bytes, nodes: seq<Bytes>, oldRoot: Bytes, newRoot: Bytes)
    requires fn < sn && AcceptsPair(sha, fn, sn, seed, seed, nodes, oldRoot, newRoot)
    ensures nodes != []
  {
  }

  /** Consistency soundness. Let a proof between `m < n` leaves be accepted against the root of
      `hs[..n]`. The old root is then the root of `hs[..m]` exactly when the node the loop starts
      from - the old root itself for a power of two, the first proof element otherwise - is 32
      bytes long, which the verifier never checks. */
  lemma ConsistencySound(sha: Hasher, hs: seq<Digest>, m: nat, n: nat, proof: seq<Bytes>, oldRoot: Bytes,
                         newRoot: Bytes,
                         messages: set<Bytes>)
    requires 0 < m < n <= |hs| && newRoot == SubRoot(sha, hs, 0, n)
    requires ConsistencyAccepts(sha, m, n, proof, oldRoot, newRoot)
    requires CoversCheck(sha, m, n, proof, oldRoot, messages)
    requires CollisionFree(sha, messages) && CoversTree(sha, hs, m, messages) && CoversTree(sha, hs, n, messages)
    ensures ProofNodes(m, proof, oldRoot) != []
    ensures oldRoot == SubRoot(sha, hs, 0, m) <==> |ProofNodes(m, proof, oldRoot)[0]| == 32
  {
    hide Node, Climb, CoversPair, CoversTree, CollisionFree, SubRoot, IsPowerOfTwo, AcceptsPair, Width, StripOnes,
      StripSteps;
    var nodes := ProofNodes(m, proof, oldRoot);
    ZeroLevel(m);
    ZeroLevel(n);
    var s := StripLevel(m, n, 0);
    SecondNode(sha, Width(m, s) - 1, Width(n, s) - 1, nodes[0], nodes[1..], oldRoot, newRoot);
    PairSoundRight(sha, hs, m, n, s, nodes[0], nodes[0], nodes[1..], oldRoot, newRoot, messages);
    CompleteNodeStable(sha, hs, m, n, s, Width(m, s) - 1);
  }

  /** With sizes equal the verifier compares roots; so for `0 < m <= n` an accepted proof with a
      32-byte starting node always means prefix. */
  lemma ConsistencyMeansPrefix(sha: Hasher, hs: seq<Digest>, m: nat, n: nat, proof: seq<Bytes>, oldRoot: Bytes,
                               newRoot: Bytes,
                               messages: set<Bytes>)
    requires 0 < m <= n <= |hs| && newRoot == SubRoot(sha, hs, 0, n)
    requires ConsistencyAccepts(sha, m, n, proof, oldRoot, newRoot)
    requires CoversCheck(sha, m, n, proof, oldRoot, messages)
    requires CollisionFree(sha, messages) && CoversTree(sha, hs, m, messages) && CoversTree(sha, hs, n, messages)
    requires forall p :: p in proof ==> |p| == 32
    requires |oldRoot| == 32
    ensures oldRoot == SubRoot(sha, hs, 0, m)
  {
    if m < n {
      ConsistencySound(sha, hs, m, n, proof, oldRoot, newRoot, messages);
    }
  }

  /** A 31-byte starting node whose missing byte is moved into the next proof element: the loop
      accepts a 32-byte old root that no three-leaf prefix of the tree has. */
  lemma ShortSeedAccepted(sha: Hasher, hs: seq<Digest>)
    requires |hs| == 4
    requires var left := NodeHash(sha, hs[0], hs[1]);
             CollisionFree(sha, {NodeInput(left, hs[2]), NodeInput(left, hs[2][..31])})
    ensures var left := NodeHash(sha, hs[0], hs[1]);
            var proof := [hs[2][..31], hs[2][31..] + hs[3], left];
            var oldRoot := NodeHash(sha, left, hs[2][..31]);
            && ConsistencyAccepts(sha, 3, 4, proof, oldRoot, SubRoot(sha, hs, 0, 4))
            && oldRoot != SubRoot(sha, hs, 0, 3)
  {
    hide CollisionFree, NodeHash, NodeInput;
    var left, right := NodeHash(sha, hs[0], hs[1]), NodeHash(sha, hs[2], hs[3]);
    var short, moved := hs[2][..31], hs[2][31..] + hs[3];
    SmallRoots(sha, hs);
    MovedBytes(sha, short, hs[2][31..], hs[3]);
    assert short + hs[2][31..] == hs[2];
    assert BitAnd(3, 2) == 2;
    assert StripOnes(2, 3) == (2, 3);
    var oldRoot, root := NodeHash(sha, left, short), NodeHash(sha, left, right);
    var none: seq<Bytes>, last: seq<Bytes> := [], [left];
    var tail, proof := [moved] + last, [short, moved] + last;
    assert last[1..] == none && tail[1..] == last && proof[1..] == tail;
    assert Climb(1, 1) == (1, 1);
    assert AcceptsPair(sha, 0, 0, oldRoot, root, none, oldRoot, root);
    assert AcceptsPair(sha, 1, 1, short, right, last, oldRoot, root);
    assert AcceptsPair(sha, 2, 3, short, short, tail, oldRoot, root);
    DifferentNodes(sha, left, hs[2], short);
  }

  lemma SmallRoots(sha: Hasher, hs: seq<Digest>)
    requires |hs| == 4
    ensures var left := NodeHash(sha, hs[0], hs[1]);
            && SubRoot(sha, hs, 0, 3) == NodeHash(sha, left, hs[2])
            && SubRoot(sha, hs, 0, 4) == NodeHash(sha, left, NodeHash(sha, hs[2], hs[3]))
  {
    hide NodeHash;
    assert SubRoot(sha, hs, 0, 2) == NodeHash(sha, hs[0], hs[1]);
    assert SubRoot(sha, hs, 2, 4) == NodeHash(sha, hs[2], hs[3]);
    assert Split(3) == 2 && Split(4) == 2;
  }

  lemma DifferentNodes(sha: Hasher, left: Digest, a: Digest, short: Bytes)
    requires CollisionFree(sha, {NodeInput(left, a), NodeInput(left, short)}) && |short| == 31
    ensures NodeHash(sha, left, a) != NodeHash(sha, left, short)
  {
    assert |NodeInput(left, a)| == 65 && |NodeInput(left, short)| == 64;
  }

  lemma {:induction false} ClimbKeeps(fn: nat, sn: int)
    ensures sn >= 0 ==> 0 <= Climb(fn, sn).1 <= sn
    ensures sn == -1 ==> Climb(fn, sn).1 == -1
    decreases fn
  {
    if fn % 2 == 0 && fn != 0 {
      ClimbKeeps(fn / 2, sn / 2);
    }
  }

  lemma {:induction false} StripKeeps(fn: nat, sn: int)
    ensures sn >= 0 ==> StripOnes(fn, sn).1 >= 0
    ensures sn == -1 ==> StripOnes(fn, sn).1 == -1
    decreases fn
  {
    if fn % 2 == 1 {
      StripKeeps(fn / 2, sn / 2);
    }
  }

  /** From a non-negative `sn` some node list is accepted, and at `fn == 0` the old root stays the start. */
  lemma {:induction false} SomeListAccepted(sha: Hasher, fn: nat, sn: nat, fr: Bytes, sr: Bytes)
    returns (nodes: seq<Bytes>, oldRoot: Bytes, newRoot: Bytes)
    ensures AcceptsPair(sha, fn, sn, fr, sr, nodes, oldRoot, newRoot) && (fn == 0 ==> oldRoot == fr)
    decreases sn
  {
    hide NodeHash, Climb;
    if sn == 0 {
      nodes, oldRoot, newRoot := [], fr, sr;
    } else {
      var rest;
      var x: Bytes := [];
      if fn % 2 == 1 || fn == sn {
        ClimbKeeps(fn, sn);
        var (f, s) := Climb(fn, sn);
        rest, oldRoot, newRoot := SomeListAccepted(sha, f / 2, s / 2, NodeHash(sha, x, fr), NodeHash(sha, x, sr));
      } else {
        rest, oldRoot, newRoot := SomeListAccepted(sha, fn / 2, sn / 2, fr, NodeHash(sha, sr, x));
      }
      nodes := [x] + rest;
      assert nodes[0] == x && nodes[1..] == rest;
    }
  }

  /** From `sn == -1` nothing is accepted. */
  lemma {:induction false} StuckBelowZero(sha: Hasher, fn: nat, fr: Bytes, sr: Bytes, nodes: seq<Bytes>, oldRoot: Bytes,
                                          newRoot: Bytes)
    ensures !AcceptsPair(sha, fn, -1, fr, sr, nodes, oldRoot, newRoot)
    decreases |nodes|
  {
    hide NodeHash, Climb;
    if nodes != [] {
      ClimbKeeps(fn, -1);
      var (f, s) := Climb(fn, -1);
      StuckBelowZero(sha, f / 2, NodeHash(sha, nodes[0], fr), NodeHash(sha, nodes[0], sr), nodes[1..], oldRoot,
                     newRoot);
      StuckBelowZero(sha, fn / 2, fr, NodeHash(sha, sr, nodes[0]), nodes[1..], oldRoot, newRoot);
    }
  }

  lemma ShrinkingProof(sha: Hasher, m: nat, n: nat) returns (proof: seq<Bytes>, oldRoot: Bytes, newRoot: Bytes)
    requires 0 < n < m
    ensures ConsistencyAccepts(sha, m, n, proof, oldRoot, newRoot)
  {
    hide AcceptsPair, StripOnes, IsPowerOfTwo;
    StripKeeps(m - 1, n - 1);
    PowerOfTwoStrips(m, n - 1);
    var (fn, sn) := StripOnes(m - 1, n - 1);
    var seed: Bytes := [];
    var nodes;
    nodes, oldRoot, newRoot := SomeListAccepted(sha, fn, sn, seed, seed);
    proof := if IsPowerOfTwo(m) then nodes else [seed] + nodes;
    var all := ProofNodes(m, proof, oldRoot);
    assert all == [seed] + nodes;
    assert all[0] == seed && all[1..] == nodes;
  }

  /** Sizes in the wrong order are not refused as such: the loop accepts something for them exactly when
      the new size is not zero. */
  lemma ShrinkingAcceptedIff(sha: Hasher, m: nat, n: nat)
    requires n < m
    ensures (exists proof, oldRoot, newRoot :: ConsistencyAccepts(sha, m, n, proof, oldRoot, newRoot)) <==> n > 0
  {
    hide AcceptsPair, StripOnes, IsPowerOfTwo;
    if n > 0 {
      var proof, oldRoot, newRoot := ShrinkingProof(sha, m, n);
    } else {
      forall proof, oldRoot, newRoot
        ensures !ConsistencyAccepts(sha, m, n, proof, oldRoot, newRoot)
      {
        StripKeeps(m - 1, n - 1);
        var nodes := ProofNodes(m, proof, oldRoot);
        if nodes != [] {
          StuckBelowZero(sha, StripOnes(m - 1, n - 1).0, nodes[0], nodes[0], nodes[1..], oldRoot, newRoot);
        }
      }
    }
  }

  // ---- Completeness ----

  lemma {:induction false} BitAndSelf(a: nat)
    ensures BitAnd(a, a) == a
  {
    if a > 0 {
      BitAndSelf(a / 2);
    }
  }

  /** The bit trick finds exactly the sizes whose trailing node is the whole old tree. */
  lemma {:induction false} PowerOfTwoStrips(m: nat, sn: int)
    requires m > 0
    ensures IsPowerOfTwo(m) <==> StripOnes(m - 1, sn).0 == 0
    decreases m
  {
    if m % 2 == 0 {
      PowerOfTwoStrips(m / 2, sn / 2);
      assert (m - 1) / 2 == m / 2 - 1;
    } else if m > 1 {
      assert (m - 1) / 2 == m / 2;
      BitAndSelf(m / 2);
    }
  }

  lemma AcceptsPairLeft(sha: Hasher, fn: nat, sn: int, fr: Bytes, sr: Bytes, nodes: seq<Bytes>, oldRoot: Bytes,
                        newRoot: Bytes,
                        f: nat, s: int, fr': Bytes, sr': Bytes, rest: seq<Bytes>)
    requires nodes != [] && sn != 0 && (fn % 2 == 1 || fn == sn)
    requires f == Climb(fn, sn).0 / 2 && s == Climb(fn, sn).1 / 2
    requires fr' == NodeHash(sha, nodes[0], fr) && sr' == NodeHash(sha, nodes[0], sr) && rest == nodes[1..]
    requires AcceptsPair(sha, f, s, fr', sr', rest, oldRoot, newRoot)
    ensures AcceptsPair(sha, fn, sn, fr, sr, nodes, oldRoot, newRoot)
  {
  }

  lemma AcceptsPairRight(sha: Hasher, fn: nat, sn: int, fr: Bytes, sr: Bytes, nodes: seq<Bytes>, oldRoot: Bytes,
                         newRoot: Bytes,
                         f: nat, s: int, sr': Bytes, rest: seq<Bytes>)
    requires nodes != [] && sn != 0 && fn % 2 == 0 && fn != sn
    requires f == fn / 2 && s == sn / 2
    requires sr' == NodeHash(sha, sr, nodes[0]) && rest == nodes[1..]
    requires AcceptsPair(sha, f, s, fr, sr', rest, oldRoot, newRoot)
    ensures AcceptsPair(sha, fn, sn, fr, sr, nodes, oldRoot, newRoot)
  {
  }

  /** The new tree's path from the old tree's last node leads the loop to both roots. */
  lemma {:induction false} PairPathAccepted(sha: Hasher, hs: seq<Digest>, m: nat, n: nat, h: nat, fn: nat, sn: nat)
    requires 0 < m <= n <= |hs| && fn == Width(m, h) - 1 && sn == Width(n, h) - 1 && fn <= sn
    ensures AcceptsPair(sha, fn, sn, Node(sha, hs, m, h, fn), Node(sha, hs, n, h, fn), PathFrom(sha, hs, n, h, fn),
                        SubRoot(sha, hs, 0, m), SubRoot(sha, hs, 0, n))
    decreases sn
  {
    hide Node, PathFrom, SubRoot, NodeHash, AcceptsPair, ClimbSteps, Climb;
    if sn == 0 {
      PairPathBase(sha, hs, m, n, h);
    } else if fn % 2 == 1 {
      assert Climb(fn, sn) == (fn, sn) by { ClimbOdd(fn, sn); }
      PairPathLeft(sha, hs, m, n, h, h, fn, sn, fn, sn);
    } else if fn == sn {
      ClimbBoth(sha, hs, m, n, h);
      var top, g := ClimbBorder(sha, hs, n, h, fn);
      WidthShrinks(n, h, top);
      PairPathLeft(sha, hs, m, n, h, top, fn, sn, g, g);
    } else {
      WidthHalves(m, h);
      WidthHalves(n, h);
      PairPathAccepted(sha, hs, m, n, h + 1, fn / 2, sn / 2);
      RightPathStep(sha, hs, n, h, fn);
      LastEvenPassesUp(sha, hs, m, h);
      AcceptsPairRight(sha, fn, sn, Node(sha, hs, m, h, fn), Node(sha, hs, n, h, fn), PathFrom(sha, hs, n, h, fn),
                       SubRoot(sha, hs, 0, m), SubRoot(sha, hs, 0, n),
                       fn / 2, sn / 2, Node(sha, hs, n, h + 1, fn / 2), PathFrom(sha, hs, n, h + 1, fn / 2));
    }
  }

  lemma ClimbOdd(fn: nat, sn: int)
    requires fn % 2 == 1
    ensures Climb(fn, sn) == (fn, sn)
  {
  }

  lemma PairPathBase(sha: Hasher, hs: seq<Digest>, m: nat, n: nat, h: nat)
    requires 0 < m <= n <= |hs| && Width(m, h) == Width(n, h) == 1
    ensures AcceptsPair(sha, 0, 0, Node(sha, hs, m, h, 0), Node(sha, hs, n, h, 0), PathFrom(sha, hs, n, h, 0),
                        SubRoot(sha, hs, 0, m), SubRoot(sha, hs, 0, n))
  {
    hide Node, SubRoot;
    TopNodeIsRoot(sha, hs, n, h);
    TopNodeIsRoot(sha, hs, m, h);
  }

  lemma {:induction false} PairPathLeft(sha: Hasher, hs: seq<Digest>, m: nat, n: nat, h: nat, top: nat, fn: nat,
                                        sn: nat, f: nat, s: nat)
    requires 0 < m <= n <= |hs| && fn == Width(m, h) - 1 && sn == Width(n, h) - 1 && fn <= sn && sn != 0
    requires fn % 2 == 1 || fn == sn
    requires Climb(fn, sn) == (f, s) && f == Width(m, top) - 1 && s == Width(n, top) - 1 && f <= s <= sn && f % 2 == 1
    requires Node(sha, hs, m, top, f) == Node(sha, hs, m, h, fn)
    requires Node(sha, hs, n, top, f) == Node(sha, hs, n, h, fn)
    requires PathFrom(sha, hs, n, top, f) == PathFrom(sha, hs, n, h, fn)
    ensures AcceptsPair(sha, fn, sn, Node(sha, hs, m, h, fn), Node(sha, hs, n, h, fn), PathFrom(sha, hs, n, h, fn),
                        SubRoot(sha, hs, 0, m), SubRoot(sha, hs, 0, n))
    decreases sn, 0
  {
    hide Node, PathFrom, SubRoot, NodeHash, AcceptsPair, ClimbSteps, Climb;
    WidthHalves(m, top);
    WidthHalves(n, top);
    PairPathAccepted(sha, hs, m, n, top + 1, f / 2, s / 2);
    LeftPathStep(sha, hs, n, top, f);
    OldParent(sha, hs, m, n, top, f);
    AcceptsPairLeft(sha, fn, sn, Node(sha, hs, m, h, fn), Node(sha, hs, n, h, fn), PathFrom(sha, hs, n, h, fn),
                    SubRoot(sha, hs, 0, m), SubRoot(sha, hs, 0, n), f / 2, s / 2,
                    Node(sha, hs, m, top + 1, f / 2), Node(sha, hs, n, top + 1, f / 2),
                    PathFrom(sha, hs, n, top + 1, f / 2));
  }

  /** The old tree's parent of its odd last node uses the new tree's left sibling. */
  lemma OldParent(sha: Hasher, hs: seq<Digest>, m: nat, n: nat, h: nat, f: nat)
    requires 0 < m <= n <= |hs| && f == Width(m, h) - 1 && f % 2 == 1 && f < Width(n, h)
    ensures f / 2 < Width(m, h + 1)
    ensures Node(sha, hs, m, h + 1, f / 2) == NodeHash(sha, PathFrom(sha, hs, n, h, f)[0], Node(sha, hs, m, h, f))
  {
    hide NodeHash;
    var j := f / 2;
    assert f == 2 * j + 1;
    CompleteNodeStable(sha, hs, m, n, h, f - 1);
  }

  /** `SUBPROOF` of section 2.1.2 of RFC 6962 for the first `m` leaves, inside `[begin, end)`. */
  function SubProof(sha: Hasher, hs: seq<Digest>, m: nat, begin: nat, end: nat, known: bool): seq<Digest>
    requires begin < m <= end <= |hs|
    decreases end - begin
  {
    if m == end then if known then [] else [SubRoot(sha, hs, begin, end)]
    else
      var mid := begin + Split(end - begin);
      if m <= mid then SubProof(sha, hs, m, begin, mid, known) + [SubRoot(sha, hs, mid, end)]
      else SubProof(sha, hs, m, mid, end, false) + [SubRoot(sha, hs, begin, mid)]
  }

  /** The start of the proof: the old tree's trailing node, unless that is the whole old tree. */
  function Seed(sha: Hasher, hs: seq<Digest>, n: nat, s: nat, fs: nat): seq<Digest>
    requires n <= |hs| && fs < Width(n, s)
  {
    if fs == 0 then [] else [Node(sha, hs, n, s, fs)]
  }

  lemma SubProofStep(sha: Hasher, hs: seq<Digest>, m: nat, begin: nat, mid: nat, end: nat, h: nat, known: bool)
    requires mid == begin + Pow2(h) && mid < end <= begin + 2 * Pow2(h)
    requires begin < m < end <= |hs|
    ensures SubProof(sha, hs, m, begin, end, known)
         == if m <= mid then SubProof(sha, hs, m, begin, mid, known) + [SubRoot(sha, hs, mid, end)]
            else SubProof(sha, hs, m, mid, end, false) + [SubRoot(sha, hs, begin, mid)]
  {
    hide SubRoot;
    SplitFromIsPow2(0, h, end - begin);
    assert Split(end - begin) == Pow2(h);
  }

  /** Above the trailing node, no node of the path ends at `m`. */
  lemma {:induction false} EndsPast(m: nat, n: nat, s: nat, h: nat, i: nat)
    requires 0 < m < n && s < h && i == IndexAt(m - 1, h)
    requires (Width(m, s) - 1) % 2 == 0 && Complete(m, s) == Width(m, s)
    ensures RangeBegin(h, i) < m < RangeEnd(n, h, i)
  {
    LastIndex(m, h);
    IndexAtRange(m - 1, h);
    CompleteLost(m, s, h);
    WidthMeansRange(m, h, i);
  }

  lemma {:induction false} LastIndex(m: nat, h: nat)
    requires m > 0
    ensures IndexAt(m - 1, h) == Width(m, h) - 1
  {
    if h > 0 {
      LastIndex(m, h - 1);
    }
  }

  lemma {:induction false} CompleteLost(m: nat, s: nat, h: nat)
    requires m > 0 && s < h && (Width(m, s) - 1) % 2 == 0 && Complete(m, s) == Width(m, s)
    ensures Complete(m, h) < Width(m, h)
    decreases h
  {
    if s + 1 < h {
      CompleteLost(m, s, h - 1);
    }
  }

  lemma {:induction false} SubProofWithin(sha: Hasher, hs: seq<Digest>, m: nat, n: nat, s: nat, fs: nat, h: nat,
                                          i: nat, begin: nat, end: nat)
    requires 0 < m < n <= |hs| && s <= h && i == IndexAt(m - 1, h) && fs == IndexAt(m - 1, s)
    requires (Width(m, s) - 1) % 2 == 0 && Complete(m, s) == Width(m, s)
    requires i < Width(n, h) && fs < Width(n, s)
    requires begin == RangeBegin(h, i) && end == RangeEnd(n, h, i)
    ensures begin < m <= end <= n
    ensures SubProof(sha, hs, m, begin, end, i == 0) + PathFrom(sha, hs, n, h, i)
         == Seed(sha, hs, n, s, fs) + PathFrom(sha, hs, n, s, fs)
    decreases h
  {
    hide SubRoot, Node, NodeHash, PathFrom;
    LastIndex(m, h);
    if h == s {
      WidthMeansRange(m, h, i);
      WidthMeansRange(m, h, i + 1);
      NodeIsSubRoot(sha, hs, n, h, i, begin, end);
      assert end == m;
    } else {
      EndsPast(m, n, s, h, i);
      IndexAtExists(n, m - 1, h - 1);
      ChildRanges(n, h, i, begin, end);
      if 2 * i + 1 < Width(n, h - 1) {
        SubProofSplit(sha, hs, m, n, s, fs, h, i, begin, end);
      } else {
        SubProofWithin(sha, hs, m, n, s, fs, h - 1, 2 * i, begin, end);
        LoneChildPath(sha, hs, n, h, i);
      }
    }
  }

  lemma {:induction false} SubProofSplit(sha: Hasher, hs: seq<Digest>, m: nat, n: nat, s: nat, fs: nat, h: nat,
                                         i: nat, begin: nat, end: nat)
    requires 0 < m < n <= |hs| && s < h && i == IndexAt(m - 1, h) && fs == IndexAt(m - 1, s)
    requires (Width(m, s) - 1) % 2 == 0 && Complete(m, s) == Width(m, s)
    requires i < Width(n, h) && fs < Width(n, s) && 2 * i + 1 < Width(n, h - 1)
    requires begin == RangeBegin(h, i) && end == RangeEnd(n, h, i) && begin < m < end <= n
    ensures SubProof(sha, hs, m, begin, end, i == 0) + PathFrom(sha, hs, n, h, i)
         == Seed(sha, hs, n, s, fs) + PathFrom(sha, hs, n, s, fs)
    decreases h, 0
  {
    hide SubRoot, Node, NodeHash, PathFrom, SubProof, Seed;
    ChildRanges(n, h, i, begin, end);
    var mid, up := begin + Pow2(h - 1), PathFrom(sha, hs, n, h, i);
    SubProofStep(sha, hs, m, begin, mid, end, h - 1, i == 0);
    SiblingPaths(sha, hs, n, h, i, begin, mid, end);
    IndexAtRange(m - 1, h - 1);
    if IndexAt(m - 1, h - 1) == 2 * i {
      SubProofWithin(sha, hs, m, n, s, fs, h - 1, 2 * i, begin, mid);
      Reassociate(SubProof(sha, hs, m, begin, mid, i == 0), SubRoot(sha, hs, mid, end), up);
    } else {
      SubProofWithin(sha, hs, m, n, s, fs, h - 1, 2 * i + 1, mid, end);
      Reassociate(SubProof(sha, hs, m, mid, end, false), SubRoot(sha, hs, begin, mid), up);
    }
  }

  /** Consistency completeness: the RFC proof from every `m` to every larger `n` is accepted. */
  lemma ConsistencyComplete(sha: Hasher, hs: seq<Digest>, m: nat, n: nat)
    requires 0 < m < n <= |hs|
    ensures ConsistencyAccepts(sha, m, n, SubProof(sha, hs, m, 0, n, true), SubRoot(sha, hs, 0, m),
                               SubRoot(sha, hs, 0, n))
  {
    hide SubRoot, Node, NodeHash, PathFrom, SubProof, AcceptsPair, IsPowerOfTwo, Climb, StripOnes, RangeBegin, Width;
    ZeroLevel(m);
    ZeroLevel(n);
    var s := StripLevel(m, n, 0);
    var fs, sn := Width(m, s) - 1, Width(n, s) - 1;
    SubProofFromSeed(sha, hs, m, n, s, fs);
    PowerOfTwoStrips(m, n - 1);
    PairPathAccepted(sha, hs, m, n, s, fs, sn);
    CompleteNodeStable(sha, hs, m, n, s, fs);
    var proof, oldRoot := SubProof(sha, hs, m, 0, n, true), SubRoot(sha, hs, 0, m);
    var nodes, path := ProofNodes(m, proof, oldRoot), PathFrom(sha, hs, n, s, fs);
    if fs == 0 {
      WholeOldTree(sha, hs, m, n, s);
      assert nodes == [oldRoot] + path;
    } else {
      assert nodes == [Node(sha, hs, n, s, fs)] + path;
    }
    assert nodes[1..] == path;
  }

  lemma ZeroLevel(n: nat)
    ensures Width(n, 0) == Complete(n, 0) == n
  {
  }

  lemma WholeOldTree(sha: Hasher, hs: seq<Digest>, m: nat, n: nat, s: nat)
    requires 0 < m < n <= |hs| && Width(m, s) == Complete(m, s) == 1 && 0 < Width(n, s)
    ensures Node(sha, hs, n, s, 0) == SubRoot(sha, hs, 0, m)
  {
    hide Node, SubRoot;
    TopNodeIsRoot(sha, hs, m, s);
    CompleteNodeStable(sha, hs, m, n, s, 0);
  }

  lemma SubProofFromSeed(sha: Hasher, hs: seq<Digest>, m: nat, n: nat, s: nat, fs: nat)
    requires 0 < m < n <= |hs| && fs == Width(m, s) - 1 && fs % 2 == 0 && Complete(m, s) == Width(m, s)
    requires fs < Width(n, s)
    ensures SubProof(sha, hs, m, 0, n, true) == Seed(sha, hs, n, s, fs) + PathFrom(sha, hs, n, s, fs)
  {
    hide SubRoot, Node, SubProof, Seed;
    var top := TopHeight(n, s);
    LastIndex(m, s);
    LastIndex(m, top);
    IndexAtExists(n, m - 1, top);
    RangeBeginZero(top);
    WidthMeansRange(n, top, 1);
    SubProofWithin(sha, hs, m, n, s, fs, top, 0, 0, n);
    assert SubProof(sha, hs, m, 0, n, true) + [] == SubProof(sha, hs, m, 0, n, true);
  }
}
