/** `_verify_inclusion` against the recursive tree hash of section 2.1.1 of RFC 6962: an accepted
    proof pins the leaf, and the audit path of every leaf is accepted. */
module Inclusion {
  import opened Encoding
  import opened Hashing
  import opened Rfc6962

  /** The inner `while` of both verifiers: climb while `fn` is even and non-zero. */
  function Climb(fn: nat, sn: int): (nat, int)
    decreases fn
  {
    if fn % 2 == 0 && fn != 0 then Climb(fn / 2, sn / 2) else (fn, sn)
  }

  /** How many levels `Climb` goes up. */
  function ClimbSteps(fn: nat): nat
    decreases fn
  {
    if fn % 2 == 0 && fn != 0 then 1 + ClimbSteps(fn / 2) else 0
  }

  /** What the proof loop decides from an intermediate `(fn, sn, r)`. */
  predicate Accepts(sha: Hasher, fn: nat, sn: int, r: Bytes, proof: seq<Bytes>, root: Bytes)
    decreases |proof|
  {
    if proof == [] then r == root && sn == 0
    else if sn == 0 then false
    else if fn % 2 == 1 || fn == sn then
      var (f, s) := Climb(fn, sn);
      Accepts(sha, f / 2, s / 2, NodeHash(sha, proof[0], r), proof[1..], root)
    else
      Accepts(sha, fn / 2, sn / 2, NodeHash(sha, r, proof[0]), proof[1..], root)
  }

  /** `messages` covers everything the proof loop hashes. */
  ghost predicate CoversRun(sha: Hasher, fn: nat, sn: int, r: Bytes, proof: seq<Bytes>, messages: set<Bytes>)
    decreases |proof|
  {
    if proof == [] || sn == 0 then true
    else if fn % 2 == 1 || fn == sn then
      var (f, s) := Climb(fn, sn);
      && NodeInput(proof[0], r) in messages
      && CoversRun(sha, f / 2, s / 2, NodeHash(sha, proof[0], r), proof[1..], messages)
    else
      && NodeInput(r, proof[0]) in messages
      && CoversRun(sha, fn / 2, sn / 2, NodeHash(sha, r, proof[0]), proof[1..], messages)
  }

  /** `_verify_inclusion`. */
  method VerifyInclusion(sha: Hasher, idx: nat, treeSize: nat, leafHash: Bytes, proof: seq<Bytes>, root: Bytes)
    returns (ok: bool)
    ensures ok <==> idx < treeSize && Accepts(sha, idx, treeSize - 1, leafHash, proof, root)
  {
    if idx >= treeSize {
      return false;
    }
    var fn: nat, sn, r := idx, treeSize - 1, leafHash;
    for k := 0 to |proof|
      invariant Accepts(sha, idx, treeSize - 1, leafHash, proof, root) == Accepts(sha, fn, sn, r, proof[k..], root)
    {
      var p := proof[k];
      assert proof[k..][0] == p && proof[k..][1..] == proof[k + 1..];
      if sn == 0 {
        return false;
      }
      if fn % 2 == 1 || fn == sn {
        r := NodeHash(sha, p, r);
        ghost var climbed := Climb(fn, sn);
        if fn % 2 == 0 {
          while fn % 2 == 0 && fn != 0
                  invariant Climb(fn, sn) == climbed
          {
            fn, sn := fn / 2, sn / 2;
          }
        }
      } else {
        r := NodeHash(sha, r, p);
      }
      fn, sn := fn / 2, sn / 2;
    }
    return r == root && sn == 0;
  }

  // ---- The right border ----

  /** Halving the last index of a level gives the last index of the next. */
  lemma WidthHalves(n: nat, h: nat)
    requires n > 0
    ensures Width(n, h + 1) - 1 == (Width(n, h) - 1) / 2
    ensures Width(n, h) > 1 ==> Width(n, h + 1) < Width(n, h)
  {
  }

  /** Climbing from a border node reaches an odd border node with the same hash. */
  lemma {:induction false} ClimbBorder(sha: Hasher, hs: seq<Digest>, n: nat, h: nat, fn: nat) returns (top: nat, g: nat)
    requires 0 < n <= |hs| && 0 < fn == Width(n, h) - 1
    ensures Climb(fn, fn) == (g, g) && g % 2 == 1 && g == Width(n, top) - 1
    ensures Node(sha, hs, n, top, g) == Node(sha, hs, n, h, fn)
    ensures PathFrom(sha, hs, n, top, g) == PathFrom(sha, hs, n, h, fn)
    ensures top == h + ClimbSteps(fn)
    decreases fn
  {
    if fn % 2 == 1 {
      top, g := h, fn;
    } else {
      assert Node(sha, hs, n, h + 1, fn / 2) == Node(sha, hs, n, h, fn);
      top, g := ClimbBorder(sha, hs, n, h + 1, fn / 2);
    }
  }

  // ---- Soundness ----

  /** An accepting loop state over the tree on `hs[..n]`, at height `h`. */
  ghost predicate AcceptingState(sha: Hasher, hs: seq<Digest>, n: nat, h: nat, fn: nat, r: Bytes, proof: seq<Bytes>,
                                 messages: set<Bytes>)
    requires 0 < n <= |hs|
  {
    && fn < Width(n, h) && |r| == 32
    && Accepts(sha, fn, Width(n, h) - 1, r, proof, SubRoot(sha, hs, 0, n))
    && CoversRun(sha, fn, Width(n, h) - 1, r, proof, messages)
  }

  /** One turn of the loop at an odd node, or at a border node after climbing to an odd one. */
  lemma LeftTurn(sha: Hasher, hs: seq<Digest>, n: nat, h: nat, fn: nat, top: nat, g: nat, r: Bytes, proof: seq<Bytes>,
                 messages: set<Bytes>)
    requires 0 < n <= |hs| && AcceptingState(sha, hs, n, h, fn, r, proof, messages)
    requires proof != [] && (fn % 2 == 1 || fn == Width(n, h) - 1)
    requires g < Width(n, top) && Climb(fn, Width(n, h) - 1) == (g, Width(n, top) - 1)
    ensures NodeInput(proof[0], r) in messages
    ensures AcceptingState(sha, hs, n, top + 1, g / 2, NodeHash(sha, proof[0], r), proof[1..], messages)
  {
    WidthHalves(n, top);
  }

  lemma RightTurn(sha: Hasher, hs: seq<Digest>, n: nat, h: nat, fn: nat, r: Bytes, proof: seq<Bytes>,
                  messages: set<Bytes>)
    requires 0 < n <= |hs| && AcceptingState(sha, hs, n, h, fn, r, proof, messages)
    requires proof != [] && fn % 2 == 0 && fn < Width(n, h) - 1
    ensures NodeInput(r, proof[0]) in messages
    ensures AcceptingState(sha, hs, n, h + 1, fn / 2, NodeHash(sha, r, proof[0]), proof[1..], messages)
  {
    WidthHalves(n, h);
  }

  /** From an accepting state, `r` is the tree's own node at the current height. */
  lemma {:induction false} SoundFrom(sha: Hasher, hs: seq<Digest>, n: nat, h: nat, fn: nat, r: Bytes, proof: seq<Bytes>,
                                     messages: set<Bytes>)
    requires 0 < n <= |hs| && AcceptingState(sha, hs, n, h, fn, r, proof, messages)
    requires CollisionFree(sha, messages) && CoversTree(sha, hs, n, messages)
    ensures r == Node(sha, hs, n, h, fn)
    decreases |proof|
  {
    if proof == [] {
      TopNodeIsRoot(sha, hs, n, h);
    } else if fn % 2 == 1 || fn == Width(n, h) - 1 {
      var top, g := h, fn;
      if fn % 2 == 0 {
        top, g := ClimbBorder(sha, hs, n, h, fn);
      }
      LeftTurn(sha, hs, n, h, fn, top, g, r, proof, messages);
      SoundFrom(sha, hs, n, top + 1, g / 2, NodeHash(sha, proof[0], r), proof[1..], messages);
      LeftStep(sha, hs, n, top, g, proof[0], r, messages);
    } else {
      RightTurn(sha, hs, n, h, fn, r, proof, messages);
      SoundFrom(sha, hs, n, h + 1, fn / 2, NodeHash(sha, r, proof[0]), proof[1..], messages);
      RightStep(sha, hs, n, h, fn, r, proof[0], messages);
    }
  }

  /** A parent of an odd node was hashed from its left sibling and that node. */
  lemma LeftStep(sha: Hasher, hs: seq<Digest>, n: nat, h: nat, i: nat, p: Bytes, r: Bytes, messages: set<Bytes>)
    requires n <= |hs| && i < Width(n, h) && i % 2 == 1
    requires |r| == 32
    requires CollisionFree(sha, messages) && CoversTree(sha, hs, n, messages)
    requires NodeInput(p, r) in messages
    requires NodeHash(sha, p, r) == Node(sha, hs, n, h + 1, i / 2)
    ensures r == Node(sha, hs, n, h, i) && p == Node(sha, hs, n, h, i - 1)
  {
    var j := i / 2;
    assert i == 2 * j + 1;
    assert ParentInput(sha, hs, n, h, j) in messages;
    NodeInputSplits(p, r, Node(sha, hs, n, h, i - 1), Node(sha, hs, n, h, i));
  }

  /** A parent of an even node with a right sibling was hashed from the two. */
  lemma RightStep(sha: Hasher, hs: seq<Digest>, n: nat, h: nat, i: nat, r: Bytes, p: Bytes, messages: set<Bytes>)
    requires n <= |hs| && i + 1 < Width(n, h) && i % 2 == 0
    requires CollisionFree(sha, messages) && CoversTree(sha, hs, n, messages)
    requires NodeInput(r, p) in messages
    requires NodeHash(sha, r, p) == Node(sha, hs, n, h + 1, i / 2)
    ensures |r| == 32 <==> r == Node(sha, hs, n, h, i)
  {
    var j := i / 2;
    assert i == 2 * j;
    assert ParentInput(sha, hs, n, h, j) in messages;
    NodeInputSplits(r, p, Node(sha, hs, n, h, i), Node(sha, hs, n, h, i + 1));
  }

  /** Inclusion soundness: a proof accepted against the root of `hs[..n]` shows the leaf hash at
      `idx`, provided the caller hands in a 32-byte leaf hash. */
  lemma InclusionSound(sha: Hasher, hs: seq<Digest>, n: nat, idx: nat, leafHash: Bytes, proof: seq<Bytes>, root: Bytes,
                       messages: set<Bytes>)
    requires n <= |hs| && idx < n
    requires Accepts(sha, idx, n - 1, leafHash, proof, root)
    requires root == SubRoot(sha, hs, 0, n)
    requires CollisionFree(sha, messages) && CoversTree(sha, hs, n, messages)
    requires CoversRun(sha, idx, n - 1, leafHash, proof, messages)
    ensures leafHash == hs[idx] <==> |leafHash| == 32
  {
    if |leafHash| == 32 {
      SoundFrom(sha, hs, n, 0, idx, leafHash, proof, messages);
    }
  }

  /** Where a node ends and its sibling begins is not part of what is hashed. */
  lemma MovedBytes(sha: Hasher, a: Bytes, b: Bytes, c: Bytes)
    ensures NodeHash(sha, a, b + c) == NodeHash(sha, a + b, c)
  {
    assert NodeInput(a, b + c) == NodeInput(a + b, c);
  }

  /** Hence every proof with a sibling in it is accepted for other leaves too: bytes can be moved between
      the leaf and its first sibling. A left leaf can be cut anywhere; a right one takes bytes over. */
  lemma OtherLeavesAccepted(sha: Hasher, n: nat, idx: nat, leaf: Bytes, proof: seq<Bytes>, root: Bytes, k: nat)
    requires idx < n && Accepts(sha, idx, n - 1, leaf, proof, root) && proof != []
    ensures idx % 2 == 0 && idx + 1 < n && k <= |leaf| ==>
              Accepts(sha, idx, n - 1, leaf[..k], [leaf[k..] + proof[0]] + proof[1..], root)
    ensures (idx % 2 == 1 || idx + 1 == n) && k <= |proof[0]| ==>
              Accepts(sha, idx, n - 1, proof[0][k..] + leaf, [proof[0][..k]] + proof[1..], root)
  {
    hide NodeHash, Climb;
    var first := proof[0];
    if idx % 2 == 0 && idx + 1 < n && k <= |leaf| {
      MovedBytes(sha, leaf[..k], leaf[k..], first);
      assert leaf[..k] + leaf[k..] == leaf;
      assert ([leaf[k..] + first] + proof[1..])[1..] == proof[1..];
    }
    if (idx % 2 == 1 || idx + 1 == n) && k <= |first| {
      MovedBytes(sha, first[..k], first[k..], leaf);
      assert first[..k] + first[k..] == first;
      assert ([first[..k]] + proof[1..])[1..] == proof[1..];
    }
  }

  // ---- Completeness ----

  /** Sibling hashes from node `i` of height `h` up to the root, lowest first. */
  function PathFrom(sha: Hasher, hs: seq<Digest>, n: nat, h: nat, i: nat): seq<Digest>
    requires n <= |hs| && i < Width(n, h)
    decreases Width(n, h)
  {
    if Width(n, h) <= 1 then []
    else
      var up := PathFrom(sha, hs, n, h + 1, i / 2);
      if i % 2 == 1 then [Node(sha, hs, n, h, i - 1)] + up
      else if i + 1 < Width(n, h) then [Node(sha, hs, n, h, i + 1)] + up
      else up
  }

  /** An odd node's path starts with its left sibling. */
  lemma LeftPathStep(sha: Hasher, hs: seq<Digest>, n: nat, h: nat, i: nat)
    requires n <= |hs| && i < Width(n, h) && i % 2 == 1
    ensures var path := PathFrom(sha, hs, n, h, i);
            && |path| > 0 && path[1..] == PathFrom(sha, hs, n, h + 1, i / 2)
            && NodeHash(sha, path[0], Node(sha, hs, n, h, i)) == Node(sha, hs, n, h + 1, i / 2)
  {
    assert i == 2 * (i / 2) + 1;
  }

  lemma RightPathStep(sha: Hasher, hs: seq<Digest>, n: nat, h: nat, i: nat)
    requires n <= |hs| && i + 1 < Width(n, h) && i % 2 == 0
    ensures var path := PathFrom(sha, hs, n, h, i);
            && |path| > 0 && path[1..] == PathFrom(sha, hs, n, h + 1, i / 2)
            && NodeHash(sha, Node(sha, hs, n, h, i), path[0]) == Node(sha, hs, n, h + 1, i / 2)
  {
    assert i == 2 * (i / 2);
  }

  lemma AcceptsLeft(sha: Hasher, fn: nat, sn: int, r: Bytes, proof: seq<Bytes>, root: Bytes,
                    f: nat, s: int, r': Bytes, rest: seq<Bytes>)
    requires proof != [] && sn != 0 && (fn % 2 == 1 || fn == sn)
    requires f == Climb(fn, sn).0 / 2 && s == Climb(fn, sn).1 / 2
    requires r' == NodeHash(sha, proof[0], r) && rest == proof[1..]
    requires Accepts(sha, f, s, r', rest, root)
    ensures Accepts(sha, fn, sn, r, proof, root)
  {
  }

  lemma AcceptsRight(sha: Hasher, fn: nat, sn: int, r: Bytes, proof: seq<Bytes>, root: Bytes,
                     f: nat, s: int, r': Bytes, rest: seq<Bytes>)
    requires proof != [] && sn != 0 && fn % 2 == 0 && fn != sn
    requires f == fn / 2 && s == sn / 2
    requires r' == NodeHash(sha, r, proof[0]) && rest == proof[1..]
    requires Accepts(sha, f, s, r', rest, root)
    ensures Accepts(sha, fn, sn, r, proof, root)
  {
  }

  lemma LeadsLeft(sha: Hasher, hs: seq<Digest>, n: nat, h: nat, i: nat)
    requires 0 < n <= |hs| && i < Width(n, h) && i % 2 == 1
    requires i / 2 < Width(n, h + 1)
    requires Accepts(sha, i / 2, Width(n, h + 1) - 1, Node(sha, hs, n, h + 1, i / 2),
                     PathFrom(sha, hs, n, h + 1, i / 2), SubRoot(sha, hs, 0, n))
    ensures Accepts(sha, i, Width(n, h) - 1, Node(sha, hs, n, h, i), PathFrom(sha, hs, n, h, i), SubRoot(sha, hs, 0, n))
  {
    var path, root := PathFrom(sha, hs, n, h, i), SubRoot(sha, hs, 0, n);
    LeftPathStep(sha, hs, n, h, i);
    WidthHalves(n, h);
    AcceptsLeft(sha, i, Width(n, h) - 1, Node(sha, hs, n, h, i), path, root,
                i / 2, Width(n, h + 1) - 1, Node(sha, hs, n, h + 1, i / 2), PathFrom(sha, hs, n, h + 1, i / 2));
  }

  lemma LeadsRight(sha: Hasher, hs: seq<Digest>, n: nat, h: nat, i: nat)
    requires 0 < n <= |hs| && i + 1 < Width(n, h) && i % 2 == 0
    requires i / 2 < Width(n, h + 1)
    requires Accepts(sha, i / 2, Width(n, h + 1) - 1, Node(sha, hs, n, h + 1, i / 2),
                     PathFrom(sha, hs, n, h + 1, i / 2), SubRoot(sha, hs, 0, n))
    ensures Accepts(sha, i, Width(n, h) - 1, Node(sha, hs, n, h, i), PathFrom(sha, hs, n, h, i), SubRoot(sha, hs, 0, n))
  {
    var path, root := PathFrom(sha, hs, n, h, i), SubRoot(sha, hs, 0, n);
    RightPathStep(sha, hs, n, h, i);
    WidthHalves(n, h);
    AcceptsRight(sha, i, Width(n, h) - 1, Node(sha, hs, n, h, i), path, root,
                 i / 2, Width(n, h + 1) - 1, Node(sha, hs, n, h + 1, i / 2), PathFrom(sha, hs, n, h + 1, i / 2));
  }

  lemma LeadsBorder(sha: Hasher, hs: seq<Digest>, n: nat, h: nat, i: nat, top: nat, g: nat)
    requires 0 < n <= |hs| && 0 < i == Width(n, h) - 1 && 0 < g == Width(n, top) - 1 && g % 2 == 1
    requires Climb(i, i) == (g, g)
    requires Node(sha, hs, n, top, g) == Node(sha, hs, n, h, i)
    requires PathFrom(sha, hs, n, top, g) == PathFrom(sha, hs, n, h, i)
    requires g / 2 < Width(n, top + 1)
    requires Accepts(sha, g / 2, Width(n, top + 1) - 1, Node(sha, hs, n, top + 1, g / 2),
                     PathFrom(sha, hs, n, top + 1, g / 2), SubRoot(sha, hs, 0, n))
    ensures Accepts(sha, i, Width(n, h) - 1, Node(sha, hs, n, h, i), PathFrom(sha, hs, n, h, i), SubRoot(sha, hs, 0, n))
  {
    var path, root := PathFrom(sha, hs, n, h, i), SubRoot(sha, hs, 0, n);
    LeftPathStep(sha, hs, n, top, g);
    WidthHalves(n, top);
    AcceptsLeft(sha, i, i, Node(sha, hs, n, h, i), path, root,
                g / 2, Width(n, top + 1) - 1, Node(sha, hs, n, top + 1, g / 2), PathFrom(sha, hs, n, top + 1, g / 2));
  }

  lemma {:induction false} PathAccepted(sha: Hasher, hs: seq<Digest>, n: nat, h: nat, i: nat)
    requires 0 < n <= |hs| && i < Width(n, h)
    ensures Accepts(sha, i, Width(n, h) - 1, Node(sha, hs, n, h, i), PathFrom(sha, hs, n, h, i), SubRoot(sha, hs, 0, n))
    decreases Width(n, h)
  {
    hide SubRoot, Node, Climb, ClimbSteps, NodeHash;
    WidthHalves(n, h);
    if Width(n, h) == 1 {
      TopNodeIsRoot(sha, hs, n, h);
    } else if i % 2 == 1 {
      PathAccepted(sha, hs, n, h + 1, i / 2);
      LeadsLeft(sha, hs, n, h, i);
    } else if i + 1 < Width(n, h) {
      PathAccepted(sha, hs, n, h + 1, i / 2);
      LeadsRight(sha, hs, n, h, i);
    } else {
      var top, g := ClimbBorder(sha, hs, n, h, i);
      WidthShrinks(n, h, top);
      WidthHalves(n, top);
      PathAccepted(sha, hs, n, top + 1, g / 2);
      LeadsBorder(sha, hs, n, h, i, top, g);
    }
  }

  lemma {:induction false} WidthShrinks(n: nat, h: nat, g: nat)
    requires h <= g
    ensures Width(n, g) <= Width(n, h)
    decreases g
  {
    if h < g {
      WidthShrinks(n, h, g - 1);
    }
  }

  /** The audit path of section 2.1.1 of RFC 6962 for leaf `m` of the range `[begin, end)`. */
  function AuditPath(sha: Hasher, hs: seq<Digest>, m: nat, begin: nat, end: nat): seq<Digest>
    requires begin <= m < end <= |hs|
    decreases end - begin
  {
    if begin + 1 == end then []
    else
      var mid := begin + Split(end - begin);
      if m < mid then AuditPath(sha, hs, m, begin, mid) + [SubRoot(sha, hs, mid, end)]
      else AuditPath(sha, hs, m, mid, end) + [SubRoot(sha, hs, begin, mid)]
  }

  /** `m >> h`. */
  function IndexAt(m: nat, h: nat): nat
  {
    if h == 0 then m else IndexAt(m, h - 1) / 2
  }

  lemma {:induction false} IndexAtRange(m: nat, h: nat)
    ensures RangeBegin(h, IndexAt(m, h)) <= m < RangeBegin(h, IndexAt(m, h) + 1)
  {
    if h > 0 {
      IndexAtRange(m, h - 1);
      var j := IndexAt(m, h - 1);
      RangeLength(h - 1, 2 * (j / 2));
      RangeLength(h - 1, 2 * (j / 2) + 1);
    }
  }

  lemma {:induction false} IndexAtExists(n: nat, m: nat, h: nat)
    requires m < n
    ensures IndexAt(m, h) < Width(n, h)
  {
    if h > 0 {
      IndexAtExists(n, m, h - 1);
    }
  }

  /** The recursive audit path inside a node, followed by that node's own path, is the whole path. */
  lemma {:induction false} AuditPathWithin(sha: Hasher, hs: seq<Digest>, n: nat, m: nat, h: nat, i: nat,
                                           begin: nat, end: nat)
    requires m < n <= |hs| && i == IndexAt(m, h) && i < Width(n, h)
    requires begin == RangeBegin(h, i) && end == RangeEnd(n, h, i)
    ensures begin <= m < end
    ensures AuditPath(sha, hs, m, begin, end) + PathFrom(sha, hs, n, h, i) == PathFrom(sha, hs, n, 0, m)
    decreases h
  {
    hide SubRoot, Node, PathFrom;
    IndexAtRange(m, h);
    if h == 0 {
      assert end == begin + 1;
    } else {
      ChildRanges(n, h, i, begin, end);
      IndexAtRange(m, h - 1);
      IndexAtExists(n, m, h - 1);
      var j := IndexAt(m, h - 1);
      if 2 * i + 1 < Width(n, h - 1) {
        AuditPathSplit(sha, hs, n, m, h, i, begin, end);
      } else {
        AuditPathWithin(sha, hs, n, m, h - 1, 2 * i, begin, end);
        LoneChildPath(sha, hs, n, h, i);
      }
    }
  }

  lemma LoneChildPath(sha: Hasher, hs: seq<Digest>, n: nat, h: nat, i: nat)
    requires 0 < n <= |hs| && h > 0 && i < Width(n, h) && 2 * i + 1 >= Width(n, h - 1)
    ensures 2 * i < Width(n, h - 1)
    ensures PathFrom(sha, hs, n, h - 1, 2 * i) == PathFrom(sha, hs, n, h, i)
  {
    hide Node;
    assert (2 * i) / 2 == i && (2 * i) % 2 == 0;
  }

  /** One recursion step of the audit path, from the parts of the split. */
  lemma AuditPathStep(sha: Hasher, hs: seq<Digest>, m: nat, begin: nat, mid: nat, end: nat, h: nat)
    requires mid == begin + Pow2(h) && mid < end <= begin + 2 * Pow2(h)
    requires begin <= m < end <= |hs|
    ensures AuditPath(sha, hs, m, begin, end)
         == if m < mid then AuditPath(sha, hs, m, begin, mid) + [SubRoot(sha, hs, mid, end)]
            else AuditPath(sha, hs, m, mid, end) + [SubRoot(sha, hs, begin, mid)]
  {
    hide SubRoot, Pow2, SplitFrom;
    SplitIsPow2(h, end - begin);
  }

  lemma SplitIsPow2(h: nat, n: nat)
    requires Pow2(h) < n <= 2 * Pow2(h)
    ensures n >= 2 && Split(n) == Pow2(h)
  {
    SplitFromIsPow2(0, h, n);
  }

  lemma {:induction false} AuditPathSplit(sha: Hasher, hs: seq<Digest>, n: nat, m: nat, h: nat, i: nat, begin: nat,
                                          end: nat)
    requires m < n <= |hs| && h > 0 && i == IndexAt(m, h) && i < Width(n, h)
    requires begin == RangeBegin(h, i) && end == RangeEnd(n, h, i) && begin <= m < end
    requires 2 * i + 1 < Width(n, h - 1)
    ensures AuditPath(sha, hs, m, begin, end) + PathFrom(sha, hs, n, h, i) == PathFrom(sha, hs, n, 0, m)
    decreases h, 0
  {
    ChildRanges(n, h, i, begin, end);
    var mid, up := begin + Pow2(h - 1), PathFrom(sha, hs, n, h, i);
    AuditPathStep(sha, hs, m, begin, mid, end, h - 1);
    SiblingPaths(sha, hs, n, h, i, begin, mid, end);
    if IndexAt(m, h - 1) == 2 * i {
      AuditPathWithin(sha, hs, n, m, h - 1, 2 * i, begin, mid);
      Reassociate(AuditPath(sha, hs, m, begin, mid), SubRoot(sha, hs, mid, end), up);
    } else {
      AuditPathWithin(sha, hs, n, m, h - 1, 2 * i + 1, mid, end);
      Reassociate(AuditPath(sha, hs, m, mid, end), SubRoot(sha, hs, begin, mid), up);
    }
  }

  lemma PathsOfChildren(sha: Hasher, hs: seq<Digest>, n: nat, h: nat, i: nat, left: nat, right: nat)
    requires n <= |hs| && left == 2 * i && right == 2 * i + 1 && right < Width(n, h)
    ensures i < Width(n, h + 1)
    ensures PathFrom(sha, hs, n, h, left) == [Node(sha, hs, n, h, right)] + PathFrom(sha, hs, n, h + 1, i)
    ensures PathFrom(sha, hs, n, h, right) == [Node(sha, hs, n, h, left)] + PathFrom(sha, hs, n, h + 1, i)
  {
    hide Node;
    assert left / 2 == i && left % 2 == 0;
    assert right / 2 == i && right % 2 == 1;
  }

  lemma SiblingPaths(sha: Hasher, hs: seq<Digest>, n: nat, h: nat, i: nat, begin: nat, mid: nat, end: nat)
    requires n <= |hs| && h > 0 && i < Width(n, h)
    requires begin == RangeBegin(h, i) && end == RangeEnd(n, h, i) && mid == begin + Pow2(h - 1)
    requires 2 * i + 1 < Width(n, h - 1)
    ensures begin < mid < end <= n
    ensures PathFrom(sha, hs, n, h - 1, 2 * i) == [SubRoot(sha, hs, mid, end)] + PathFrom(sha, hs, n, h, i)
    ensures PathFrom(sha, hs, n, h - 1, 2 * i + 1) == [SubRoot(sha, hs, begin, mid)] + PathFrom(sha, hs, n, h, i)
  {
    hide Node, SubRoot, PathFrom;
    ChildRanges(n, h, i, begin, end);
    NodeIsSubRoot(sha, hs, n, h - 1, 2 * i, begin, mid);
    NodeIsSubRoot(sha, hs, n, h - 1, 2 * i + 1, mid, end);
    PathsOfChildren(sha, hs, n, h - 1, i, 2 * i, 2 * i + 1);
  }

  lemma Reassociate(a: seq<Digest>, x: Digest, b: seq<Digest>)
    ensures (a + [x]) + b == a + ([x] + b)
  {
  }

  /** A height at which a single node is left. */
  function TopHeight(n: nat, h: nat): (t: nat)
    requires n > 0
    ensures t >= h && Width(n, t) == 1
    decreases Width(n, h)
  {
    if Width(n, h) == 1 then h else TopHeight(n, h + 1)
  }

  lemma AuditPathIsPathFrom(sha: Hasher, hs: seq<Digest>, n: nat, m: nat)
    requires m < n <= |hs|
    ensures AuditPath(sha, hs, m, 0, n) == PathFrom(sha, hs, n, 0, m)
  {
    var top := TopHeight(n, 0);
    IndexAtExists(n, m, top);
    RangeBeginZero(top);
    WidthMeansRange(n, top, 1);
    AuditPathWithin(sha, hs, n, m, top, 0, 0, n);
    assert AuditPath(sha, hs, m, 0, n) + [] == AuditPath(sha, hs, m, 0, n);
  }

  /** Inclusion completeness: the audit path of every leaf of every tree is accepted. */
  lemma InclusionComplete(sha: Hasher, hs: seq<Digest>, n: nat, idx: nat)
    requires idx < n <= |hs|
    ensures Accepts(sha, idx, n - 1, hs[idx], AuditPath(sha, hs, idx, 0, n), SubRoot(sha, hs, 0, n))
  {
    AuditPathIsPathFrom(sha, hs, n, idx);
    PathAccepted(sha, hs, n, 0, idx);
  }
}
